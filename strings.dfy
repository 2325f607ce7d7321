/**
 Python's `str.split(sep)` and `sep.join(pieces)` for a one-character
 separator, as the list converter uses them.

 With an explicit separator, Python's split cuts the string at every
 occurrence of the separator and keeps every piece, empty ones included:
 `"".split("+") == [""]`, `"+a".split("+") == ["", "a"]`,
 `"a++".split("+") == ["a", "", ""]`. Join puts the separator between
 consecutive pieces and yields `""` for no pieces.
 */
module Strings {

  /** Number of occurrences of `d` in `s`. */
  function Count(s: string, d: char): nat
  {
    if s == [] then 0 else (if s[0] == d then 1 else 0) + Count(s[1..], d)
  }

  /** Position of the first occurrence of `d` in `s`. */
  function IndexOf(s: string, d: char): (i: nat)
    requires d in s
    ensures i < |s| && s[i] == d
    ensures d !in s[..i]
  {
    if s[0] == d then 0
    else
      var j := IndexOf(s[1..], d);
      assert s[..j + 1] == [s[0]] + s[1..][..j];
      j + 1
  }

  /** `s.split(d)`: the pieces between consecutive occurrences of `d`. */
  function Split(s: string, d: char): (pieces: seq<string>)
    ensures |pieces| >= 1
    decreases |s|
  {
    if d !in s then [s]
    else
      var i := IndexOf(s, d);
      [s[..i]] + Split(s[i + 1..], d)
  }

  /** No piece contains the separator. */
  predicate DelimiterFree(pieces: seq<string>, d: char)
  {
    forall k :: 0 <= k < |pieces| ==> d !in pieces[k]
  }

  /** `d.join(pieces)`: the pieces in order with `d` between neighbours. */
  function Join(pieces: seq<string>, d: char): (r: string)
    ensures |pieces| >= 1 ==> pieces[0] <= r
  {
    if |pieces| == 0 then []
    else if |pieces| == 1 then pieces[0]
    else pieces[0] + [d] + Join(pieces[1..], d)
  }

  lemma {:induction false} CountAppend(a: string, b: string, d: char)
    ensures Count(a + b, d) == Count(a, d) + Count(b, d)
  {
    if a != [] {
      assert (a + b)[1..] == a[1..] + b;
      CountAppend(a[1..], b, d);
    } else {
      assert a + b == b;
    }
  }

  lemma {:induction false} CountAbsent(s: string, d: char)
    requires d !in s
    ensures Count(s, d) == 0
  {
    if s != [] {
      assert d !in s[1..] by {
        forall k | 0 <= k < |s| - 1 ensures s[1..][k] != d {
          assert s[1..][k] == s[k + 1];
        }
      }
      CountAbsent(s[1..], d);
    }
  }

  /** Joining separator-free pieces puts exactly one separator between each pair of neighbours. */
  lemma {:induction false} JoinCount(pieces: seq<string>, d: char)
    requires |pieces| >= 1
    requires DelimiterFree(pieces, d)
    ensures Count(Join(pieces, d), d) == |pieces| - 1
    decreases |pieces|
  {
    assert d !in pieces[0];
    CountAbsent(pieces[0], d);
    if |pieces| > 1 {
      var rest := pieces[1..];
      assert DelimiterFree(rest, d) by {
        forall k | 0 <= k < |rest| ensures d !in rest[k] {
          assert rest[k] == pieces[k + 1];
        }
      }
      JoinCount(rest, d);
      CountAppend(pieces[0], [d], d);
      CountAppend(pieces[0] + [d], Join(rest, d), d);
      assert Count([d], d) == 1 by { assert [d][1..] == []; }
    }
  }

  /** Split yields one piece more than there are separators in `s`. */
  lemma {:induction false} SplitCount(s: string, d: char)
    ensures |Split(s, d)| == Count(s, d) + 1
    decreases |s|
  {
    if d !in s {
      CountAbsent(s, d);
    } else {
      var i := IndexOf(s, d);
      assert s == s[..i] + [d] + s[i + 1..];
      CountAbsent(s[..i], d);
      CountAppend(s[..i] + [d], s[i + 1..], d);
      CountAppend(s[..i], [d], d);
      assert Count([d], d) == 1 by { assert [d][1..] == []; }
      SplitCount(s[i + 1..], d);
    }
  }

  /** No piece of a split contains the separator. */
  lemma {:induction false} SplitDelimiterFree(s: string, d: char)
    ensures DelimiterFree(Split(s, d), d)
    decreases |s|
  {
    if d in s {
      var i := IndexOf(s, d);
      SplitDelimiterFree(s[i + 1..], d);
      var pieces := Split(s, d);
      assert pieces == [s[..i]] + Split(s[i + 1..], d);
      forall k | 0 <= k < |pieces| ensures d !in pieces[k] {
        if k > 0 {
          assert pieces[k] == Split(s[i + 1..], d)[k - 1];
        }
      }
    }
  }

  /** Joining the pieces of a split gives back the string: nothing is lost or reordered. */
  lemma {:induction false} JoinSplit(s: string, d: char)
    ensures Join(Split(s, d), d) == s
    decreases |s|
  {
    if d in s {
      var i := IndexOf(s, d);
      var rest := Split(s[i + 1..], d);
      JoinSplit(s[i + 1..], d);
      assert Split(s, d) == [s[..i]] + rest;
      assert ([s[..i]] + rest)[1..] == rest;
      assert s == s[..i] + [d] + s[i + 1..];
    }
  }

  /** The separator right after a separator-free prefix is the first one. */
  lemma IndexOfAfterPrefix(a: string, b: string, d: char)
    requires d !in a
    ensures d in a + [d] + b
    ensures IndexOf(a + [d] + b, d) == |a|
  {
    var s := a + [d] + b;
    assert s[|a|] == d;
    assert s[..|a|] == a;
  }

  /**
   Splitting a join of separator-free pieces gives back the pieces,
   provided there is at least one (the empty list joins to `""`, which
   splits into `[""]`).
   */
  lemma {:induction false} SplitJoin(pieces: seq<string>, d: char)
    requires |pieces| >= 1
    requires DelimiterFree(pieces, d)
    ensures Split(Join(pieces, d), d) == pieces
    decreases |pieces|
  {
    if |pieces| == 1 {
      assert d !in pieces[0];
    } else {
      var rest := pieces[1..];
      assert DelimiterFree(rest, d) by {
        forall k | 0 <= k < |rest| ensures d !in rest[k] {
          assert rest[k] == pieces[k + 1];
        }
      }
      assert d !in pieces[0];
      var tail := Join(rest, d);
      var s := pieces[0] + [d] + tail;
      assert Join(pieces, d) == s;
      IndexOfAfterPrefix(pieces[0], tail, d);
      assert s[..|pieces[0]|] == pieces[0];
      assert s[|pieces[0]| + 1..] == tail;
      assert Split(s, d) == [pieces[0]] + Split(tail, d);
      SplitJoin(rest, d);
      assert pieces == [pieces[0]] + rest;
    }
  }
}
