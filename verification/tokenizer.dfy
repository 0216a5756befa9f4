/**
 * The tokenizer: `split` cuts a string at every occurrence of one delimiter
 * character and keeps the empty pieces; `Join` glues pieces back together.
 */
module Tokenizer {
  import opened Wrappers

  /**
   * `str.find_first_of(d, start)`: the first position at or after `start`
   * that holds `d`, or `None` for `npos`.
   */
  function FindFirstOf(s: string, d: char, start: nat): (k: Option<nat>)
    ensures k.Some? ==> start <= k.value < |s| && s[k.value] == d
    ensures k.Some? ==> forall j :: start <= j < k.value ==> s[j] != d
    ensures k.None? ==> forall j :: start <= j < |s| ==> s[j] != d
    decreases |s| - start
  {
    if start >= |s| then None
    else if s[start] == d then Some(start)
    else FindFirstOf(s, d, start + 1)
  }

  /** The first occurrence is unique: any index that is one is what `FindFirstOf` finds. */
  lemma FirstOccurrence(s: string, d: char, start: nat, k: nat)
    requires start <= k < |s| && s[k] == d
    requires forall j :: start <= j < k ==> s[j] != d
    ensures FindFirstOf(s, d, start) == Some(k)
  {
  }

  /** The pieces of `s` between occurrences of `d`, empty pieces included. */
  function Pieces(s: string, d: char): (r: seq<string>)
    ensures |r| >= 1
    decreases |s|
  {
    match FindFirstOf(s, d, 0)
    case None => [s]
    case Some(k) => [s[..k]] + Pieces(s[k + 1..], d)
  }

  /** The pieces joined with `sep` between each pair of neighbours. */
  function Join(parts: seq<string>, sep: char): (r: string)
    ensures |parts| == 1 ==> r == parts[0]
  {
    if |parts| == 0 then ""
    else if |parts| == 1 then parts[0]
    else parts[0] + [sep] + Join(parts[1..], sep)
  }

  /** Appending one more part adds the separator and that part at the end. */
  lemma {:induction false} JoinSnoc(parts: seq<string>, p: string, sep: char)
    requires |parts| >= 1
    ensures Join(parts + [p], sep) == Join(parts, sep) + [sep] + p
    decreases |parts|
  {
    if |parts| == 1 {
      assert parts + [p] == [parts[0], p];
      assert [parts[0], p][1..] == [p];
    } else {
      assert (parts + [p])[1..] == parts[1..] + [p];
      JoinSnoc(parts[1..], p, sep);
    }
  }

  /** Splitting a string at its first delimiter. */
  lemma PiecesAtFirst(s: string, d: char, k: nat)
    requires k < |s| && s[k] == d
    requires forall j :: 0 <= j < k ==> s[j] != d
    ensures Pieces(s, d) == [s[..k]] + Pieces(s[k + 1..], d)
  {
    FirstOccurrence(s, d, 0, k);
  }

  /** Joining the pieces of `s` with the same delimiter gives `s` back. */
  lemma {:induction false} JoinPieces(s: string, d: char)
    ensures Join(Pieces(s, d), d) == s
    decreases |s|
  {
    match FindFirstOf(s, d, 0)
    case None =>
    case Some(k) =>
      var rest := Pieces(s[k + 1..], d);
      JoinPieces(s[k + 1..], d);
      assert ([s[..k]] + rest)[1..] == rest;
      assert s == s[..k] + [d] + s[k + 1..];
  }

  /** No piece contains the delimiter. */
  lemma {:induction false} PiecesFree(s: string, d: char)
    ensures forall i :: 0 <= i < |Pieces(s, d)| ==> d !in Pieces(s, d)[i]
    decreases |s|
  {
    match FindFirstOf(s, d, 0)
    case None =>
      assert forall j :: 0 <= j < |s| ==> s[j] != d;
    case Some(k) =>
      PiecesFree(s[k + 1..], d);
      var rest := Pieces(s[k + 1..], d);
      assert forall j :: 0 <= j < k ==> s[..k][j] != d;
      forall i | 0 <= i < |Pieces(s, d)|
        ensures d !in Pieces(s, d)[i]
      {
        if i > 0 {
          assert Pieces(s, d)[i] == rest[i - 1];
        }
      }
  }

  /** There is exactly one more piece than there are delimiters in `s`. */
  lemma {:induction false} PiecesCount(s: string, d: char)
    ensures |Pieces(s, d)| == multiset(s)[d] + 1
    decreases |s|
  {
    match FindFirstOf(s, d, 0)
    case None =>
      assert d !in s;
    case Some(k) =>
      PiecesCount(s[k + 1..], d);
      assert d !in s[..k];
      assert s == s[..k] + [d] + s[k + 1..];
      assert multiset(s) == multiset(s[..k]) + multiset{d} + multiset(s[k + 1..]);
  }

  /** A string without the delimiter is a single piece (the empty string included). */
  lemma PiecesNoDelimiter(s: string, d: char)
    requires d !in s
    ensures Pieces(s, d) == [s]
  {
    assert forall j :: 0 <= j < |s| ==> s[j] != d;
  }

  /**
   * The other round trip: delimiter-free parts are what splitting their join
   * gives back, so `Pieces` is the only split that `Join` undoes.
   */
  lemma {:induction false} PiecesJoin(parts: seq<string>, d: char)
    requires |parts| >= 1
    requires forall i :: 0 <= i < |parts| ==> d !in parts[i]
    ensures Pieces(Join(parts, d), d) == parts
    decreases |parts|
  {
    if |parts| == 1 {
      PiecesNoDelimiter(parts[0], d);
    } else {
      var p := parts[0];
      var tail := Join(parts[1..], d);
      var s := p + [d] + tail;
      assert Join(parts, d) == s;
      assert forall j :: 0 <= j < |p| ==> s[j] == p[j];
      assert s[|p|] == d;
      PiecesAtFirst(s, d, |p|);
      assert s[..|p|] == p;
      assert s[|p| + 1..] == tail;
      PiecesJoin(parts[1..], d);
      assert parts == [p] + parts[1..];
    }
  }

  /** One step of the scan: the piece from `start` up to the delimiter found at `k`. */
  lemma PiecesFrom(s: string, d: char, start: nat, k: nat)
    requires start <= |s| && FindFirstOf(s, d, start) == Some(k)
    ensures Pieces(s[start..], d) == [s[start..k]] + Pieces(s[k + 1..], d)
  {
    var t := s[start..];
    PiecesAtFirst(t, d, k - start);
    assert t[..k - start] == s[start..k];
    assert t[k - start + 1..] == s[k + 1..];
  }

  /** The last step of the scan: no delimiter is left after `start`. */
  lemma PiecesRest(s: string, d: char, start: nat)
    requires start <= |s| && FindFirstOf(s, d, start) == None
    ensures Pieces(s[start..], d) == [s[start..]]
  {
    assert forall j :: 0 <= j < |s[start..]| ==> s[start..][j] == s[start + j];
    PiecesNoDelimiter(s[start..], d);
  }

  /**
   * `split(str, d)`: scans with `start`/`stop`, pushing each piece, and the
   * remainder after the last delimiter at the end.
   */
  method Split(s: string, d: char) returns (r: seq<string>)
    ensures r == Pieces(s, d)
    ensures |r| == multiset(s)[d] + 1
    ensures forall i :: 0 <= i < |r| ==> d !in r[i]
    ensures Join(r, d) == s
  {
    r := [];
    var start: nat := 0;
    var stop := FindFirstOf(s, d, 0);
    assert s[0..] == s;
    while stop.Some?
      invariant start <= |s|
      invariant stop == FindFirstOf(s, d, start)
      invariant r + Pieces(s[start..], d) == Pieces(s, d)
      decreases |s| - start
    {
      var k := stop.value;
      PiecesFrom(s, d, start, k);
      assert (r + [s[start..k]]) + Pieces(s[k + 1..], d) == r + Pieces(s[start..], d);
      r := r + [s[start..k]];
      start := k + 1;
      stop := FindFirstOf(s, d, start);
    }
    PiecesRest(s, d, start);
    r := r + [s[start..]];
    PiecesCount(s, d);
    PiecesFree(s, d);
    JoinPieces(s, d);
  }
}
