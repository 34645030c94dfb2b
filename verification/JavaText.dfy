/**
 * The parts of java.lang.String that the frame filters rely on:
 * `indexOf`, `contains` and `split` with a separator that has no
 * regular-expression metacharacters and the default limit 0.
 */
module JavaText {
  import opened Wrappers

  /** `t` occurs in `s` starting at index `i`. */
  predicate OccursAt(s: string, t: string, i: int)
  {
    0 <= i && i + |t| <= |s| && s[i..i + |t|] == t
  }

  lemma OccursAtTail(s: string, t: string)
    requires s != []
    ensures forall j :: 0 <= j ==> (OccursAt(s[1..], t, j) <==> OccursAt(s, t, j + 1))
    ensures forall j :: 1 <= j ==> (OccursAt(s, t, j) <==> OccursAt(s[1..], t, j - 1))
  {
  }

  /** The index of the leftmost occurrence of `t` in `s`, as `String.indexOf` finds it. */
  function IndexOf(s: string, t: string): (r: Option<nat>)
    ensures r.Some? ==> OccursAt(s, t, r.value)
    ensures r.Some? ==> forall j :: 0 <= j < r.value ==> !OccursAt(s, t, j)
    ensures r.None? ==> forall j :: !OccursAt(s, t, j)
    decreases |s|
  {
    if |s| < |t| then None
    else if s[..|t|] == t then Some(0)
    else
      OccursAtTail(s, t);
      match IndexOf(s[1..], t)
      case None => None
      case Some(k) => Some(k + 1)
  }

  /** `String.contains`. */
  function Contains(s: string, t: string): (r: bool)
    ensures r <==> exists i :: OccursAt(s, t, i)
  {
    IndexOf(s, t).Some?
  }

  /** The part of `s` before the leftmost occurrence of `sep`, or all of `s` when `sep` does not occur. */
  function Before(s: string, sep: string): (r: string)
    ensures r <= s
    ensures forall j :: 0 <= j < |r| ==> !OccursAt(s, sep, j)
    ensures Contains(s, sep) ==> OccursAt(s, sep, |r|)
    ensures !Contains(s, sep) ==> r == s
  {
    match IndexOf(s, sep)
    case None => s
    case Some(i) => s[..i]
  }

  /**
   * The pieces of `s` between the leftmost non-overlapping occurrences of
   * `sep`, scanning left to right, empty pieces included.
   */
  function Pieces(s: string, sep: string): (r: seq<string>)
    requires sep != []
    ensures |r| >= 1
    decreases |s|
  {
    match IndexOf(s, sep)
    case None => [s]
    case Some(i) => [s[..i]] + Pieces(s[i + |sep|..], sep)
  }

  /** The pieces joined back together with `sep` between each two. */
  function JoinWith(parts: seq<string>, sep: string): string
    decreases |parts|
  {
    if |parts| <= 1 then (if parts == [] then [] else parts[0])
    else parts[0] + sep + JoinWith(parts[1..], sep)
  }

  /** Cutting `s` at the occurrences of `sep` loses nothing: joining the pieces gives `s` back. */
  lemma {:induction false} PiecesJoin(s: string, sep: string)
    requires sep != []
    ensures JoinWith(Pieces(s, sep), sep) == s
    decreases |s|
  {
    match IndexOf(s, sep)
    case None =>
    case Some(i) =>
      var rest := s[i + |sep|..];
      PiecesJoin(rest, sep);
      assert Pieces(s, sep)[1..] == Pieces(rest, sep);
      assert s == s[..i] + sep + rest;
  }

  /** The list with its trailing empty strings removed, as `split` with limit 0 does. */
  function DropTrailingEmpty(xs: seq<string>): (r: seq<string>)
    ensures r <= xs
    ensures r == [] || r[|r| - 1] != ""
    ensures forall k :: |r| <= k < |xs| ==> xs[k] == ""
    decreases |xs|
  {
    if xs == [] || xs[|xs| - 1] != "" then xs
    else DropTrailingEmpty(xs[..|xs| - 1])
  }

  /**
   * `s.split(sep)` for a separator without regular-expression
   * metacharacters: when `sep` does not occur the result is `[s]`,
   * otherwise the pieces with the trailing empty ones removed.
   */
  function Split(s: string, sep: string): (r: seq<string>)
    requires sep != []
    ensures IndexOf(s, sep).None? ==> r == [s]
    ensures r <= Pieces(s, sep)
    ensures IndexOf(s, sep).Some? ==> r == [] || r[|r| - 1] != []
    ensures forall k :: |r| <= k < |Pieces(s, sep)| ==> Pieces(s, sep)[k] == []
  {
    if IndexOf(s, sep).None? then [s] else DropTrailingEmpty(Pieces(s, sep))
  }

  /** `s` is one or more copies of `sep` and nothing else. */
  predicate IsRepetition(s: string, sep: string)
    requires sep != []
    decreases |s|
  {
    |sep| <= |s| && s[..|sep|] == sep && (|s| == |sep| || IsRepetition(s[|sep|..], sep))
  }

  /** Every string in `xs` is empty. */
  predicate AllEmpty(xs: seq<string>)
  {
    forall k :: 0 <= k < |xs| ==> xs[k] == []
  }

  lemma {:induction false} PiecesAllEmpty(s: string, sep: string)
    requires sep != []
    ensures AllEmpty(Pieces(s, sep)) <==> (s == [] || IsRepetition(s, sep))
    decreases |s|
  {
    var ps := Pieces(s, sep);
    match IndexOf(s, sep)
    case None =>
      assert ps == [s];
      if AllEmpty(ps) {
        assert ps[0] == s;
      }
    case Some(i) =>
      var rest := s[i + |sep|..];
      PiecesAllEmpty(rest, sep);
      assert ps == [s[..i]] + Pieces(rest, sep);
      if IsRepetition(s, sep) {
        assert OccursAt(s, sep, 0);
        assert i == 0;
        assert rest == s[|sep|..];
        forall k | 0 <= k < |ps| ensures ps[k] == [] {
          if k > 0 { assert ps[k] == Pieces(rest, sep)[k - 1]; }
        }
      }
      if AllEmpty(ps) {
        assert ps[0] == s[..i];
        forall k | 0 <= k < |Pieces(rest, sep)| ensures Pieces(rest, sep)[k] == [] {
          assert Pieces(rest, sep)[k] == ps[k + 1];
        }
        assert i == 0;
        assert s[..|sep|] == sep;
      }
  }

  /** `split` returns an empty array exactly when `s` is nothing but copies of the separator. */
  lemma SplitEmptyIff(s: string, sep: string)
    requires sep != []
    ensures Split(s, sep) == [] <==> IsRepetition(s, sep)
  {
    if IndexOf(s, sep).Some? {
      var ps := Pieces(s, sep);
      PiecesAllEmpty(s, sep);
      assert s != [] by {
        assert OccursAt(s, sep, IndexOf(s, sep).value);
      }
      if Split(s, sep) == [] {
        assert AllEmpty(ps);
      }
    }
  }

  /** When `split` returns something, its first element is the part of `s` before the first separator. */
  lemma SplitFirst(s: string, sep: string)
    requires sep != []
    requires Split(s, sep) != []
    ensures Split(s, sep)[0] == Before(s, sep)
  {
    if IndexOf(s, sep).Some? {
      var ps := Pieces(s, sep);
      assert Split(s, sep)[0] == ps[0];
    }
  }
}
