/** Small sequence vocabulary shared by the request handler and the directory
    model: Rust's `Option`, `str::split` on a one-element separator, the
    inverse `join`, substring containment and the sum of a list of counts. */
module Wrappers {

  datatype Option<+T> = None | Some(value: T)
}

module Seqs {

  /** The pieces of `s` between occurrences of `sep`, in order, empty pieces
      included, as `str::split` yields them: "" gives [""], " " gives ["", ""]. */
  function Split<T(==)>(s: seq<T>, sep: T): (r: seq<seq<T>>)
    ensures |r| >= 1
    decreases |s|
  {
    if s == [] then [[]]
    else
      var rest := Split(s[1..], sep);
      if s[0] == sep then [[]] + rest
      else [[s[0]] + rest[0]] + rest[1..]
  }

  /** `parts` glued back together with `sep` between neighbours. */
  function Join<T>(parts: seq<seq<T>>, sep: T): seq<T>
  {
    if parts == [] then []
    else if |parts| == 1 then parts[0]
    else parts[0] + [sep] + Join(parts[1..], sep)
  }

  /** Splitting loses nothing: joining the pieces gives the input back. */
  lemma {:induction false} JoinSplit<T>(s: seq<T>, sep: T)
    ensures Join(Split(s, sep), sep) == s
    decreases |s|
  {
    if s != [] {
      JoinSplit(s[1..], sep);
      var rest := Split(s[1..], sep);
      if s[0] == sep {
        assert Split(s, sep)[1..] == rest;
      } else if |rest| == 1 {
        assert Join(Split(s, sep), sep) == [s[0]] + rest[0];
      } else {
        var r := Split(s, sep);
        assert r[1..] == rest[1..];
        assert Join(rest, sep) == rest[0] + [sep] + Join(rest[1..], sep);
      }
    }
  }

  /** Every element of every piece comes from the input and is not the separator. */
  lemma {:induction false} SplitPieces<T>(s: seq<T>, sep: T)
    ensures forall i :: 0 <= i < |Split(s, sep)| ==> sep !in Split(s, sep)[i]
    ensures forall i, x :: 0 <= i < |Split(s, sep)| && x in Split(s, sep)[i] ==> x in s
    decreases |s|
  {
    if s != [] {
      SplitPieces(s[1..], sep);
      var rest := Split(s[1..], sep);
      var r := Split(s, sep);
      forall i, x | 0 <= i < |r| && x in r[i] ensures x in s && x != sep {
        var j := if s[0] == sep then i - 1 else i;
        if s[0] != sep && i == 0 {
          assert r[0] == [s[0]] + rest[0];
          if x != s[0] {
            assert x in rest[0];
            assert x in s[1..];
          }
        } else {
          assert r[i] == rest[j];
          assert x in s[1..];
        }
      }
    }
  }

  /** Without a separator there is exactly one piece, the input itself. */
  lemma {:induction false} SplitWithoutSeparator<T>(s: seq<T>, sep: T)
    requires sep !in s
    ensures Split(s, sep) == [s]
    decreases |s|
  {
    if s != [] {
      assert sep !in s[1..];
      SplitWithoutSeparator(s[1..], sep);
      assert [s[0]] + s[1..] == s;
    }
  }

  /** A single piece means the input held no separator and that piece is the input. */
  lemma SinglePiece<T>(s: seq<T>, sep: T)
    requires |Split(s, sep)| == 1
    ensures sep !in s && Split(s, sep)[0] == s
  {
    JoinSplit(s, sep);
    SplitPieces(s, sep);
    assert Split(s, sep)[0] == Join(Split(s, sep), sep);
  }

  /** Index of the first occurrence of `x` in `s`. */
  function IndexOf<T(==)>(s: seq<T>, x: T): (k: nat)
    requires x in s
    ensures k < |s| && s[k] == x && x !in s[..k]
  {
    if s[0] == x then 0 else 1 + IndexOf(s[1..], x)
  }

  /** Splitting at the first separator: the piece before it, then the pieces
      of what follows it. */
  lemma {:induction false} SplitAtFirst<T>(s: seq<T>, sep: T, k: nat)
    requires k < |s| && s[k] == sep && sep !in s[..k]
    ensures Split(s, sep) == [s[..k]] + Split(s[k + 1..], sep)
    decreases k
  {
    if k > 0 {
      assert s[1..][..k - 1] == s[1..k];
      assert sep !in s[1..][..k - 1];
      SplitAtFirst(s[1..], sep, k - 1);
      assert s[1..][k..] == s[k + 1..];
      assert [s[0]] + s[1..k] == s[..k];
    }
  }

  /** `p` occurs in `s` starting at index `i`. */
  predicate OccursAt<T(==)>(s: seq<T>, p: seq<T>, i: int)
  {
    0 <= i && i + |p| <= |s| && s[i..i + |p|] == p
  }

  /** Substring containment, `str::contains` with a string pattern. */
  predicate Contains<T(==)>(s: seq<T>, p: seq<T>)
  {
    exists i | 0 <= i <= |s| - |p| :: OccursAt(s, p, i)
  }

  /** Sum of a list of byte counts; the last element is peeled off, so that a
      running total kept by a loop is `Sum` of the counts seen so far. */
  function Sum(s: seq<nat>): nat
  {
    if s == [] then 0 else Sum(s[..|s| - 1]) + s[|s| - 1]
  }
}
