/**
 * `String.prototype.split` with a one-character separator and a limit, as the
 * router applies it to the recorded command name (`name.split(' ', 3)`), and
 * its inverse, joining with the separator.
 */
module Text {

  /** `s.split(sep)`: every piece between occurrences of `sep`, empty pieces included. */
  function Split(s: string, sep: char): (pieces: seq<string>)
    ensures |pieces| >= 1
    ensures forall i :: 0 <= i < |pieces| ==> sep !in pieces[i]
  {
    if |s| == 0 then [""]
    else
      var rest := Split(s[1..], sep);
      if s[0] == sep then [""] + rest
      else [[s[0]] + rest[0]] + rest[1..]
  }

  /** `pieces.join(sep)`. */
  function Join(pieces: seq<string>, sep: char): string {
    if |pieces| == 0 then ""
    else if |pieces| == 1 then pieces[0]
    else pieces[0] + [sep] + Join(pieces[1..], sep)
  }

  /** How many times `c` occurs in `s`. */
  function Count(s: string, c: char): nat {
    if |s| == 0 then 0 else (if s[0] == c then 1 else 0) + Count(s[1..], c)
  }

  /** `s.split(sep, limit)`: JavaScript splits fully and keeps only the first `limit` pieces. */
  function SplitLimit(s: string, sep: char, limit: nat): (pieces: seq<string>)
    ensures |pieces| <= limit
    ensures limit > 0 ==> |pieces| >= 1
    ensures pieces <= Split(s, sep)
    ensures Count(s, sep) < limit ==> pieces == Split(s, sep)
    ensures Count(s, sep) >= limit ==> |pieces| == limit
  {
    var all := Split(s, sep);
    SplitCount(s, sep);
    if |all| <= limit then all else all[..limit]
  }

  /** Splitting yields one more piece than there are separators. */
  lemma {:induction false} SplitCount(s: string, sep: char)
    ensures |Split(s, sep)| == Count(s, sep) + 1
  {
    if |s| > 0 {
      SplitCount(s[1..], sep);
    }
  }

  /** Joining the pieces of a split gives back the string. */
  lemma {:induction false} JoinSplit(s: string, sep: char)
    ensures Join(Split(s, sep), sep) == s
  {
    if |s| > 0 {
      var rest := Split(s[1..], sep);
      JoinSplit(s[1..], sep);
      if s[0] == sep {
        assert Split(s, sep) == [""] + rest;
        assert s == [sep] + s[1..];
      } else {
        var pieces := Split(s, sep);
        assert pieces == [[s[0]] + rest[0]] + rest[1..];
        if |rest| == 1 {
          assert s == [s[0]] + s[1..];
        } else {
          assert pieces[1..] == rest[1..];
          assert Join(rest, sep) == rest[0] + [sep] + Join(rest[1..], sep);
          assert s == [s[0]] + s[1..];
        }
      }
    }
  }

  /** Splitting a join of separator-free pieces gives back the pieces. */
  lemma {:induction false} SplitJoin(pieces: seq<string>, sep: char)
    requires |pieces| >= 1
    requires forall i :: 0 <= i < |pieces| ==> sep !in pieces[i]
    ensures Split(Join(pieces, sep), sep) == pieces
  {
    if |pieces| == 1 {
      SplitNoSep(pieces[0], sep);
    } else {
      var tail := Join(pieces[1..], sep);
      SplitJoin(pieces[1..], sep);
      SplitAround(pieces[0], tail, sep);
    }
  }

  /** A string without the separator is a single piece. */
  lemma {:induction false} SplitNoSep(s: string, sep: char)
    requires sep !in s
    ensures Split(s, sep) == [s]
  {
    if |s| > 0 {
      SplitNoSep(s[1..], sep);
      assert s == [s[0]] + s[1..];
    }
  }

  /** Splitting `a + sep + b`, where `a` has no separator, puts `a` in front of the pieces of `b`. */
  lemma {:induction false} SplitAround(a: string, b: string, sep: char)
    requires sep !in a
    ensures Split(a + [sep] + b, sep) == [a] + Split(b, sep)
  {
    if |a| == 0 {
      assert a + [sep] + b == [sep] + b;
      assert ([sep] + b)[1..] == b;
    } else {
      SplitAround(a[1..], b, sep);
      assert (a + [sep] + b)[1..] == a[1..] + [sep] + b;
      assert a == [a[0]] + a[1..];
    }
  }

  /**
   * A string with at least three separators keeps exactly its first three
   * pieces under a limit of three, whatever follows the third separator.
   */
  lemma SplitLimitThree(a: string, b: string, c: string, rest: string, sep: char)
    requires sep !in a && sep !in b && sep !in c
    ensures SplitLimit(a + [sep] + b + [sep] + c + [sep] + rest, sep, 3) == [a, b, c]
  {
    var s := a + [sep] + b + [sep] + c + [sep] + rest;
    assert s == a + [sep] + (b + [sep] + (c + [sep] + rest));
    SplitAround(a, b + [sep] + (c + [sep] + rest), sep);
    SplitAround(b, c + [sep] + rest, sep);
    SplitAround(c, rest, sep);
    assert Split(s, sep) == [a, b, c] + Split(rest, sep);
    SplitCount(s, sep);
  }

  /** The pieces kept by a limited split, joined back, are a prefix of the string. */
  lemma {:induction false} JoinSplitLimitPrefix(s: string, sep: char, limit: nat)
    ensures Join(SplitLimit(s, sep, limit), sep) <= s
  {
    var all := Split(s, sep);
    JoinSplit(s, sep);
    JoinPrefix(all, |SplitLimit(s, sep, limit)|, sep);
  }

  /** Joining a prefix of a piece list gives a prefix of the full join. */
  lemma {:induction false} JoinPrefix(pieces: seq<string>, n: nat, sep: char)
    requires n <= |pieces|
    ensures Join(pieces[..n], sep) <= Join(pieces, sep)
  {
    if n > 0 && |pieces| > 1 {
      if n == 1 {
        assert pieces[..1] == [pieces[0]];
      } else {
        JoinPrefix(pieces[1..], n - 1, sep);
        assert pieces[..n][1..] == pieces[1..][..n - 1];
      }
    }
  }
}
