/** `String.prototype.split` and `Array.prototype.join` for a one-character
    separator, which is the only form the extension uses ('+', '&', '=', '.'). */
module Text {

  /** `s.split(d)`: the pieces of `s` between occurrences of `d`, in order.
      The empty string splits to one empty piece, as in JavaScript. */
  function Split(s: string, d: char): (r: seq<string>)
    ensures |r| >= 1
    ensures forall i :: 0 <= i < |r| ==> d !in r[i]
    decreases |s|
  {
    if s == [] then [[]]
    else
      var rest := Split(s[1..], d);
      if s[0] == d then [[]] + rest
      else [[s[0]] + rest[0]] + rest[1..]
  }

  /** `parts.join(d)`. */
  function Join(parts: seq<string>, d: char): string
  {
    if |parts| == 0 then []
    else if |parts| == 1 then parts[0]
    else parts[0] + [d] + Join(parts[1..], d)
  }

  /** Splitting and re-joining on the same separator gives back the string. */
  lemma {:induction false} JoinSplit(s: string, d: char)
    ensures Join(Split(s, d), d) == s
    decreases |s|
  {
    if s != [] {
      var rest := Split(s[1..], d);
      JoinSplit(s[1..], d);
      if s[0] == d {
        assert ([[]] + rest)[1..] == rest;
      } else if |rest| > 1 {
        var r := Split(s, d);
        assert r[1..] == rest[1..];
        assert Join(r, d) == ([s[0]] + rest[0]) + [d] + Join(rest[1..], d);
        assert Join(rest, d) == rest[0] + [d] + Join(rest[1..], d);
        assert s == [s[0]] + s[1..];
      } else {
        assert s == [s[0]] + s[1..];
      }
    }
  }

  /** A string without the separator splits to itself alone. */
  lemma {:induction false} SplitWithoutSeparator(p: string, d: char)
    requires d !in p
    ensures Split(p, d) == [p]
    decreases |p|
  {
    if p != [] {
      SplitWithoutSeparator(p[1..], d);
      assert p == [p[0]] + p[1..];
    }
  }

  /** A separator-free prefix followed by the separator splits off as one piece. */
  lemma {:induction false} SplitAfterPiece(p: string, t: string, d: char)
    requires d !in p
    ensures Split(p + [d] + t, d) == [p] + Split(t, d)
    decreases |p|
  {
    var s := p + [d] + t;
    if p == [] {
      assert s[0] == d && s[1..] == t;
    } else {
      assert s[0] == p[0] && s[1..] == p[1..] + [d] + t;
      SplitAfterPiece(p[1..], t, d);
      assert p == [p[0]] + p[1..];
    }
  }

  /** Joining separator-free pieces and splitting again gives back the pieces:
      the converse of JoinSplit. */
  lemma {:induction false} SplitJoin(parts: seq<string>, d: char)
    requires |parts| >= 1
    requires forall i :: 0 <= i < |parts| ==> d !in parts[i]
    ensures Split(Join(parts, d), d) == parts
    decreases |parts|
  {
    if |parts| == 1 {
      SplitWithoutSeparator(parts[0], d);
    } else {
      SplitJoin(parts[1..], d);
      SplitAfterPiece(parts[0], Join(parts[1..], d), d);
      assert parts == [parts[0]] + parts[1..];
    }
  }

  /** Joining cuts at any interior boundary: the first k pieces, the separator, the rest. */
  lemma {:induction false} JoinAt(parts: seq<string>, d: char, k: nat)
    requires 0 < k < |parts|
    ensures Join(parts, d) == Join(parts[..k], d) + [d] + Join(parts[k..], d)
    decreases k
  {
    if k > 1 {
      JoinAt(parts[1..], d, k - 1);
      assert parts[1..][..k - 1] == parts[..k][1..];
      assert parts[1..][k - 1..] == parts[k..];
    }
  }

  /** Splitting at a separator splits each side independently. */
  lemma {:induction false} SplitConcat(x: string, t: string, d: char)
    ensures Split(x + [d] + t, d) == Split(x, d) + Split(t, d)
    decreases |x|
  {
    var s := x + [d] + t;
    if x == [] {
      assert s[0] == d && s[1..] == t;
    } else {
      assert s[0] == x[0] && s[1..] == x[1..] + [d] + t;
      SplitConcat(x[1..], t, d);
    }
  }
}
