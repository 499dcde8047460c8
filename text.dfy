/**
 * The two standard-library string searches the parser relies on, over
 * character sequences: `str::find` with a char pattern and `str::split`
 * with a char pattern.
 */
module Text {
  import opened Wrappers

  /** Index of the first occurrence of `c` in `s`, or None when `c` does not occur. */
  function Find(s: string, c: char): (r: Option<nat>)
    ensures r.None? <==> c !in s
    ensures r.Some? ==> r.value < |s| && s[r.value] == c && c !in s[..r.value]
  {
    if s == [] then None
    else if s[0] == c then Some(0)
    else match Find(s[1..], c)
      case None => None
      case Some(i) =>
        assert s[..i + 1] == [s[0]] + s[1..][..i];
        Some(i + 1)
  }

  /** The pieces joined back together, with `d` between consecutive pieces. */
  function Join(pieces: seq<string>, d: char): string
  {
    if pieces == [] then ""
    else if |pieces| == 1 then pieces[0]
    else pieces[0] + [d] + Join(pieces[1..], d)
  }

  /**
   * The pieces of `s` between occurrences of `d`, in order. There is always
   * at least one piece: the empty string splits into one empty piece, and two
   * adjacent separators enclose an empty piece.
   */
  function Split(s: string, d: char): (pieces: seq<string>)
    ensures |pieces| >= 1
    ensures forall k :: 0 <= k < |pieces| ==> d !in pieces[k]
    ensures Join(pieces, d) == s
    decreases |s|
  {
    match Find(s, d)
    case None => [s]
    case Some(i) =>
      var rest := Split(s[i + 1..], d);
      assert s == s[..i] + [d] + s[i + 1..];
      [s[..i]] + rest
  }

  /** Splitting is the inverse of joining separator-free pieces: the pieces are determined by the text. */
  lemma {:induction false} SplitJoin(pieces: seq<string>, d: char)
    requires |pieces| >= 1
    requires forall k :: 0 <= k < |pieces| ==> d !in pieces[k]
    ensures Split(Join(pieces, d), d) == pieces
    decreases |pieces|
  {
    if |pieces| > 1 {
      var s := Join(pieces, d);
      var p := pieces[0];
      assert s == p + [d] + Join(pieces[1..], d);
      assert s[..|p|] == p && s[|p|] == d;
      assert Find(s, d) == Some(|p|);
      assert s[|p| + 1..] == Join(pieces[1..], d);
      SplitJoin(pieces[1..], d);
    } else {
      assert Join(pieces, d) == pieces[0];
    }
  }

  /** Joining a piece in front of a non-empty list puts one separator between them. */
  lemma JoinCons(p: string, pieces: seq<string>, d: char)
    requires pieces != []
    ensures Join([p] + pieces, d) == p + [d] + Join(pieces, d)
  {
    assert ([p] + pieces)[1..] == pieces;
  }

  /** The first occurrence of `c` is found right after a prefix that does not contain it. */
  lemma FindAfter(p: string, c: char, rest: string)
    requires c !in p
    ensures Find(p + [c] + rest, c) == Some(|p|)
  {
    var s := p + [c] + rest;
    assert s[..|p|] == p && s[|p|] == c;
  }

  /** Text without the separator is a single piece. */
  lemma SplitNone(s: string, d: char)
    requires d !in s
    ensures Split(s, d) == [s]
  {
  }

  /** A sequence built as `left`, one element, `right` gives those three back by position. */
  lemma Cut<T>(s: seq<T>, left: seq<T>, c: T, right: seq<T>)
    requires s == left + [c] + right
    ensures |left| < |s| && s[..|left|] == left && s[|left|] == c && s[|left| + 1..] == right
  {
  }

  /** Slicing a prefix of `s` is slicing `s`. */
  lemma SliceOfPrefix<T>(s: seq<T>, a: nat, b: nat, n: nat)
    requires a <= b <= n <= |s|
    ensures s[..n][a..b] == s[a..b] && s[..n][..b] == s[..b] && s[..n][a..] == s[a..n]
  {
  }
}
