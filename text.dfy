/** String helpers with the semantics of Rust's `str::split` for a non-empty
    string pattern: the pieces between the leftmost non-overlapping
    occurrences of the separator, in order, with nothing trimmed. */
module Text {

  /** Pieces of `s` between the leftmost non-overlapping occurrences of `sep`.
      There is always at least one piece; the first piece is a prefix of `s`. */
  function Split(s: string, sep: string): (r: seq<string>)
    requires |sep| > 0
    ensures |r| >= 1
    ensures r[0] <= s
    decreases |s|
  {
    if |s| < |sep| then [s]
    else if s[..|sep|] == sep then [""] + Split(s[|sep|..], sep)
    else
      var rest := Split(s[1..], sep);
      [[s[0]] + rest[0]] + rest[1..]
  }

  /** The pieces glued back together with `sep` between consecutive pieces. */
  function Join(pieces: seq<string>, sep: string): string
  {
    if |pieces| == 0 then ""
    else if |pieces| == 1 then pieces[0]
    else pieces[0] + sep + Join(pieces[1..], sep)
  }

  /** Number of positions of `s` at which `sep` starts (overlaps included). */
  function Occurrences(s: string, sep: string): nat
    requires |sep| > 0
    decreases |s|
  {
    if |s| < |sep| then 0
    else (if s[..|sep|] == sep then 1 else 0) + Occurrences(s[1..], sep)
  }

  /** `sep` has no proper border: no proper suffix of it is also a prefix, so
      two of its occurrences can never overlap. "\n", "-" and the two-character
      text backslash-n are border-free. */
  predicate BorderFree(sep: string)
  {
    |sep| > 0 && forall k :: 0 < k < |sep| ==> sep[k..] != sep[..|sep| - k]
  }

  /** All strings of a sequence glued together, in order. */
  function Concat(parts: seq<string>): string
  {
    if parts == [] then "" else parts[0] + Concat(parts[1..])
  }

  /** A solver hint, not a property of the model: associativity of string
      concatenation, stated once so that callers comparing long templates can
      regroup them without the verifier going character by character. */
  lemma StringAssoc(a: string, b: string, c: string)
    ensures (a + b) + c == a + (b + c)
  {
  }

  lemma ConcatAppend(a: seq<string>, b: seq<string>)
    ensures Concat(a + b) == Concat(a) + Concat(b)
  {
    if a == [] {
      assert a + b == b;
    } else {
      assert (a + b)[1..] == a[1..] + b;
      ConcatAppend(a[1..], b);
    }
  }

  lemma ConcatSnoc(a: seq<string>, s: string)
    ensures Concat(a + [s]) == Concat(a) + s
  {
    ConcatAppend(a, [s]);
    assert Concat([s]) == s + Concat([]);
  }

  lemma JoinCons(c: char, p: string, ps: seq<string>, sep: string)
    ensures Join([[c] + p] + ps, sep) == [c] + Join([p] + ps, sep)
  {
    if ps != [] {
      assert ([[c] + p] + ps)[1..] == ps;
      assert ([p] + ps)[1..] == ps;
    }
  }

  lemma JoinAppend(a: seq<string>, b: seq<string>, sep: string)
    requires |a| >= 1 && |b| >= 1
    ensures Join(a + b, sep) == Join(a, sep) + sep + Join(b, sep)
  {
    if |a| == 1 {
      assert (a + b)[1..] == b;
    } else {
      assert (a + b)[1..] == a[1..] + b;
      JoinAppend(a[1..], b, sep);
    }
  }

  lemma JoinThree(a: string, b: string, c: string, sep: string)
    ensures Join([a, b], sep) == a + sep + b
    ensures Join([a, b, c], sep) == a + sep + (b + sep + c)
  {
    assert [a, b][1..] == [b];
    assert [a, b, c][1..] == [b, c];
    assert Join([b, c], sep) == b + sep + c;
  }

  lemma JoinFour(a: string, b: string, c: string, d: string, sep: string)
    ensures Join([a, b, c, d], sep) == a + sep + b + sep + c + sep + d
  {
    assert [a, b, c, d][1..] == [b, c, d];
    assert [b, c, d][1..] == [c, d];
    assert [c, d][1..] == [d];
    assert Join([c, d], sep) == c + sep + d;
    assert Join([b, c, d], sep) == b + sep + (c + sep + d);
    assert Join([a, b, c, d], sep) == a + sep + (b + sep + (c + sep + d));
  }

  /** Joining the pieces with the separator gives back the original string. */
  lemma {:induction false} JoinSplit(s: string, sep: string)
    requires |sep| > 0
    ensures Join(Split(s, sep), sep) == s
    decreases |s|
  {
    if |s| < |sep| {
    } else if s[..|sep|] == sep {
      var tail := s[|sep|..];
      JoinSplit(tail, sep);
      var rest := Split(tail, sep);
      assert ([""] + rest)[1..] == rest;
      assert Join([""] + rest, sep) == "" + sep + Join(rest, sep);
      assert s == sep + tail;
    } else {
      var tail := s[1..];
      JoinSplit(tail, sep);
      var rest := Split(tail, sep);
      assert Split(s, sep) == [[s[0]] + rest[0]] + rest[1..];
      assert rest == [rest[0]] + rest[1..];
      JoinCons(s[0], rest[0], rest[1..], sep);
      assert s == [s[0]] + tail;
    }
  }

  lemma OccurrencesAt(s: string, sep: string)
    requires |sep| > 0 && |s| >= |sep|
    ensures Occurrences(s, sep) == (if s[..|sep|] == sep then 1 else 0) + Occurrences(s[1..], sep)
  {
  }

  /** A prefix of an occurrence-free string is occurrence-free. */
  lemma {:induction false} OccurrencesOfPrefix(p: string, s: string, sep: string)
    requires |sep| > 0 && p <= s && Occurrences(s, sep) == 0
    ensures Occurrences(p, sep) == 0
    decreases |p|
  {
    if |p| >= |sep| {
      assert p[..|sep|] == s[..|sep|];
      assert p[1..] <= s[1..];
      OccurrencesOfPrefix(p[1..], s[1..], sep);
    }
  }

  /** Every piece is exactly the text between two separators: it contains no
      occurrence of the separator. */
  lemma {:induction false} SplitPiecesFree(s: string, sep: string)
    requires |sep| > 0
    ensures forall i :: 0 <= i < |Split(s, sep)| ==> Occurrences(Split(s, sep)[i], sep) == 0
    decreases |s|
  {
    var r := Split(s, sep);
    if |s| < |sep| {
    } else if s[..|sep|] == sep {
      SplitPiecesFree(s[|sep|..], sep);
      assert forall i :: 1 <= i < |r| ==> r[i] == Split(s[|sep|..], sep)[i - 1];
    } else {
      SplitPiecesFree(s[1..], sep);
      var rest := Split(s[1..], sep);
      var first := [s[0]] + rest[0];
      assert first <= s by {
        assert rest[0] <= s[1..];
      }
      if |first| >= |sep| {
        assert first[..|sep|] == s[..|sep|];
        assert first[1..] == rest[0];
      }
      assert Occurrences(first, sep) == 0;
      assert forall i :: 1 <= i < |r| ==> r[i] == rest[i];
    }
  }

  /** Two occurrences of `sep` in `s`, at 0 and at `k` with `0 < k < |sep|`,
      would make the last `|sep| - k` characters of `sep` a border. */
  lemma OverlapIsBorder(s: string, sep: string, k: nat)
    requires 0 < k < |sep| && |s| >= k + |sep|
    ensures s[..|sep|] == sep && s[k..k + |sep|] == sep ==> sep[k..] == sep[..|sep| - k]
  {
    if s[..|sep|] == sep && s[k..k + |sep|] == sep {
      forall j | 0 <= j < |sep| - k
        ensures sep[k..][j] == sep[..|sep| - k][j]
      {
        assert s[k + j] == sep[j];
        assert s[k + j] == sep[k + j];
      }
    }
  }

  /** No match starts at the front of `p + sep + t` when `p` is non-empty and
      occurrence-free, provided `sep` is border-free. */
  lemma NoMatchAtFront(p: string, sep: string, t: string)
    requires BorderFree(sep) && |p| > 0 && Occurrences(p, sep) == 0
    ensures (p + sep + t)[..|sep|] != sep
  {
    var s := p + sep + t;
    if |p| >= |sep| {
      assert s[..|sep|] == p[..|sep|];
    } else {
      var k := |p|;
      assert s[k..k + |sep|] == sep;
      OverlapIsBorder(s, sep, k);
    }
  }

  /** An occurrence-free piece followed by the separator is split off as the
      first piece, whatever follows. */
  lemma {:induction false} SplitAfterPiece(p: string, sep: string, t: string)
    requires BorderFree(sep) && Occurrences(p, sep) == 0
    ensures Split(p + sep + t, sep) == [p] + Split(t, sep)
    decreases |p|
  {
    var s := p + sep + t;
    if |p| == 0 {
      assert s == sep + t;
      assert s[..|sep|] == sep;
      assert s[|sep|..] == t;
    } else {
      NoMatchAtFront(p, sep, t);
      if |p| >= |sep| {
        OccurrencesAt(p, sep);
      }
      assert Occurrences(p[1..], sep) == 0;
      assert s[1..] == p[1..] + sep + t;
      SplitAfterPiece(p[1..], sep, t);
      assert [s[0]] + p[1..] == p;
    }
  }

  /** An occurrence-free string is a single piece. */
  lemma {:induction false} SplitFree(p: string, sep: string)
    requires |sep| > 0 && Occurrences(p, sep) == 0
    ensures Split(p, sep) == [p]
    decreases |p|
  {
    if |p| >= |sep| {
      OccurrencesAt(p, sep);
      SplitFree(p[1..], sep);
      assert [p[0]] + p[1..] == p;
    }
  }

  /** Splitting is the inverse of joining occurrence-free pieces with a
      border-free separator: the pieces come back exactly, in order. */
  lemma {:induction false} SplitJoin(pieces: seq<string>, sep: string)
    requires BorderFree(sep) && |pieces| >= 1
    requires forall i :: 0 <= i < |pieces| ==> Occurrences(pieces[i], sep) == 0
    ensures Split(Join(pieces, sep), sep) == pieces
    decreases |pieces|
  {
    if |pieces| == 1 {
      SplitFree(pieces[0], sep);
    } else {
      SplitJoin(pieces[1..], sep);
      SplitAfterPiece(pieces[0], sep, Join(pieces[1..], sep));
      assert [pieces[0]] + pieces[1..] == pieces;
    }
  }

  /** Splitting text around a separator splits each side independently. */
  lemma SplitAround(a: string, sep: string, b: string)
    requires BorderFree(sep)
    ensures Split(a + sep + b, sep) == Split(a, sep) + Split(b, sep)
  {
    var pa, pb := Split(a, sep), Split(b, sep);
    JoinSplit(a, sep);
    JoinSplit(b, sep);
    SplitPiecesFree(a, sep);
    SplitPiecesFree(b, sep);
    JoinAppend(pa, pb, sep);
    var ps := pa + pb;
    assert forall i :: 0 <= i < |ps| ==> Occurrences(ps[i], sep) == 0 by {
      forall i | 0 <= i < |ps| ensures Occurrences(ps[i], sep) == 0 {
        if i < |pa| { assert ps[i] == pa[i]; } else { assert ps[i] == pb[i - |pa|]; }
      }
    }
    SplitJoin(ps, sep);
  }

  /** After a match of a border-free separator at the front, none of the
      positions inside that match starts another one. */
  lemma {:induction false} SkipFrom(s: string, sep: string, k: nat)
    requires BorderFree(sep) && |s| >= |sep| && s[..|sep|] == sep && 1 <= k <= |sep|
    ensures Occurrences(s[k..], sep) == Occurrences(s[|sep|..], sep)
    decreases |sep| - k
  {
    if k < |sep| {
      var u := s[k..];
      if |u| >= |sep| {
        OverlapIsBorder(s, sep, k);
        assert u[..|sep|] == s[k..k + |sep|];
        OccurrencesAt(u, sep);
        assert u[1..] == s[k + 1..];
      }
      SkipFrom(s, sep, k + 1);
    }
  }

  /** With a border-free separator there is one more piece than there are
      occurrences of the separator. */
  lemma {:induction false} SplitCount(s: string, sep: string)
    requires BorderFree(sep)
    ensures |Split(s, sep)| == Occurrences(s, sep) + 1
    decreases |s|
  {
    if |s| < |sep| {
    } else if s[..|sep|] == sep {
      SkipFrom(s, sep, 1);
      SplitCount(s[|sep|..], sep);
    } else {
      SplitCount(s[1..], sep);
    }
  }

  /** For a one-character separator, occurring nowhere means the character
      is absent. */
  lemma {:induction false} OccurrencesChar(s: string, c: char)
    ensures Occurrences(s, [c]) == 0 <==> c !in s
    decreases |s|
  {
    if |s| >= 1 {
      OccurrencesChar(s[1..], c);
      assert s == [s[0]] + s[1..];
      assert (s[..1] == [c]) == (s[0] == c);
    }
  }
}
