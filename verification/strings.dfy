/** String helpers shared by the model of the `File` class: PHP's `explode` and
    `implode` with a one-character delimiter, prefixes and suffixes, and
    occurrence of a fixed word inside a string. */
module Strings {

  /** The number of occurrences of `c` in `s`. */
  function Count(s: string, c: char): nat {
    multiset(s)[c]
  }

  /** `x` is a suffix of `s` (Dafny's `<=` on sequences is the prefix order). */
  predicate IsSuffix(x: string, s: string) {
    |x| <= |s| && s[|s| - |x|..] == x
  }

  /** PHP `implode(d, parts)`: the pieces glued together with `d` between neighbours. */
  function Implode(parts: seq<string>, d: char): string
    requires |parts| >= 1
  {
    if |parts| == 1 then parts[0] else parts[0] + [d] + Implode(parts[1..], d)
  }

  /** PHP `explode(d, s)`: the maximal `d`-free pieces of `s`, in order.  It always
      yields at least one piece. */
  function Explode(s: string, d: char): (parts: seq<string>)
    ensures |parts| >= 1
  {
    if |s| == 0 then [""]
    else
      var rest := Explode(s[1..], d);
      if s[0] == d then [""] + rest else [[s[0]] + rest[0]] + rest[1..]
  }

  /** `explode` yields one more piece than there are delimiters, no piece holds
      the delimiter, and gluing the pieces back together gives `s` again. */
  lemma ExplodeSpec(s: string, d: char)
    ensures |Explode(s, d)| == Count(s, d) + 1
    ensures forall i :: 0 <= i < |Explode(s, d)| ==> d !in Explode(s, d)[i]
    ensures Implode(Explode(s, d), d) == s
  {
    ExplodeCount(s, d);
    ExplodePiecesFree(s, d);
    ExplodeImplode(s, d);
  }

  /** One piece more than there are delimiters. */
  lemma {:induction false} ExplodeCount(s: string, d: char)
    ensures |Explode(s, d)| == Count(s, d) + 1
  {
    if |s| > 0 {
      ExplodeCount(s[1..], d);
      CountFirst(s, d);
    }
  }

  /** No piece holds the delimiter. */
  lemma {:induction false} ExplodePiecesFree(s: string, d: char)
    ensures forall i :: 0 <= i < |Explode(s, d)| ==> d !in Explode(s, d)[i]
  {
    if |s| > 0 {
      var rest := Explode(s[1..], d);
      ExplodePiecesFree(s[1..], d);
      if s[0] == d {
        DelimiterFreeConcat([""], rest, d);
      } else {
        assert d !in [s[0]] + rest[0];
        DelimiterFreeConcat([[s[0]] + rest[0]], rest[1..], d);
      }
    }
  }

  /** Gluing the pieces back together gives the input. */
  lemma {:induction false} ExplodeImplode(s: string, d: char)
    ensures Implode(Explode(s, d), d) == s
  {
    if |s| > 0 {
      var t := s[1..];
      var rest := Explode(t, d);
      ExplodeImplode(t, d);
      assert s == [s[0]] + t;
      if s[0] == d {
        assert ([""] + rest)[1..] == rest;
      } else {
        ImplodePrepend(s[0], rest, d);
      }
    }
  }

  /** Counting splits off the first character. */
  lemma CountFirst(s: string, c: char)
    requires |s| > 0
    ensures Count(s, c) == Count(s[1..], c) + (if s[0] == c then 1 else 0)
  {
    assert s == [s[0]] + s[1..];
    assert multiset(s) == multiset([s[0]]) + multiset(s[1..]);
  }

  /** Exploding a string that starts with the delimiter: an empty first piece. */
  lemma ExplodeDelimiterFirst(t: string, d: char)
    ensures Explode([d] + t, d) == [""] + Explode(t, d)
  {
    assert ([d] + t)[1..] == t;
  }

  /** Exploding a string that starts with another character: it joins the first piece. */
  lemma ExplodeOtherFirst(c: char, t: string, d: char)
    requires c != d
    ensures Explode([c] + t, d) == [[c] + Explode(t, d)[0]] + Explode(t, d)[1..]
  {
    assert ([c] + t)[1..] == t;
  }

  /** Prepending a character to the first piece prepends it to the imploded string. */
  lemma {:induction false} ImplodePrepend(c: char, parts: seq<string>, d: char)
    requires |parts| >= 1
    ensures Implode([[c] + parts[0]] + parts[1..], d) == [c] + Implode(parts, d)
  {
    var ps := [[c] + parts[0]] + parts[1..];
    if |parts| > 1 {
      assert ps[1..] == parts[1..];
    }
  }

  /** Imploding a concatenation of piece lists puts one delimiter at the seam. */
  lemma {:induction false} ImplodeAppend(xs: seq<string>, ys: seq<string>, d: char)
    requires |xs| >= 1 && |ys| >= 1
    ensures Implode(xs + ys, d) == Implode(xs, d) + [d] + Implode(ys, d)
  {
    if |xs| == 1 {
      assert (xs + ys)[1..] == ys;
    } else {
      assert (xs + ys)[1..] == xs[1..] + ys;
      ImplodeAppend(xs[1..], ys, d);
    }
  }

  /** `Explode` is the only way to cut `s` into `d`-free pieces that implode to `s`:
      `Implode` and `Explode` are inverse to each other. */
  lemma {:induction false} ExplodeUnique(parts: seq<string>, s: string, d: char)
    requires |parts| >= 1
    requires forall i :: 0 <= i < |parts| ==> d !in parts[i]
    requires Implode(parts, d) == s
    ensures Explode(s, d) == parts
  {
    if |parts| == 1 {
      ExplodeSpec(s, d);
      assert Count(s, d) == 0 by { assert s == parts[0]; }
    } else {
      var t := Implode(parts[1..], d);
      forall i | 0 <= i < |parts[1..]| ensures d !in parts[1..][i] {
        assert parts[1..][i] == parts[i + 1];
      }
      ExplodeUnique(parts[1..], t, d);
      ExplodeAfterPiece(parts[0], t, d);
      assert parts == [parts[0]] + parts[1..];
    }
  }

  /** Exploding a string that starts with a `d`-free piece and a delimiter. */
  lemma {:induction false} ExplodeAfterPiece(p: string, t: string, d: char)
    requires d !in p
    ensures Explode(p + [d] + t, d) == [p] + Explode(t, d)
    decreases |p|
  {
    if |p| == 0 {
      assert p + [d] + t == [d] + t;
      ExplodeDelimiterFirst(t, d);
    } else {
      var u := p[1..] + [d] + t;
      assert p + [d] + t == [p[0]] + u;
      ExplodeAfterPiece(p[1..], t, d);
      ExplodeOtherFirst(p[0], u, d);
      assert [p[0]] + p[1..] == p;
    }
  }

  /** Splitting at a delimiter splits the pieces: explode distributes over `a + d + b`. */
  lemma {:induction false} ExplodeConcat(a: string, b: string, d: char)
    ensures Explode(a + [d] + b, d) == Explode(a, d) + Explode(b, d)
  {
    var xs, ys := Explode(a, d), Explode(b, d);
    assert forall i :: 0 <= i < |xs + ys| ==> d !in (xs + ys)[i] by {
      ExplodeSpec(a, d);
      ExplodeSpec(b, d);
      DelimiterFreeConcat(xs, ys, d);
    }
    assert Implode(xs + ys, d) == a + [d] + b by {
      ExplodeSpec(a, d);
      ExplodeSpec(b, d);
      ImplodeAppend(xs, ys, d);
    }
    ExplodeUnique(xs + ys, a + [d] + b, d);
  }

  /** Two lists of `d`-free pieces concatenate to a list of `d`-free pieces. */
  lemma DelimiterFreeConcat(xs: seq<string>, ys: seq<string>, d: char)
    requires forall i :: 0 <= i < |xs| ==> d !in xs[i]
    requires forall i :: 0 <= i < |ys| ==> d !in ys[i]
    ensures forall i :: 0 <= i < |xs + ys| ==> d !in (xs + ys)[i]
  {
    forall i | 0 <= i < |xs + ys| ensures d !in (xs + ys)[i] {
      if i < |xs| { assert (xs + ys)[i] == xs[i]; } else { assert (xs + ys)[i] == ys[i - |xs|]; }
    }
  }

  /** A string without the delimiter explodes to itself alone. */
  lemma {:induction false} ExplodeNoDelimiter(s: string, d: char)
    requires d !in s
    ensures Explode(s, d) == [s]
  {
    ExplodeUnique([s], s, d);
  }

  /** Imploding all pieces equals imploding all but the last, then the delimiter
      and the last piece. */
  lemma {:induction false} ImplodeLast(parts: seq<string>, d: char)
    requires |parts| >= 2
    ensures Implode(parts, d) == Implode(parts[..|parts| - 1], d) + [d] + parts[|parts| - 1]
  {
    assert parts == parts[..|parts| - 1] + [parts[|parts| - 1]];
    ImplodeAppend(parts[..|parts| - 1], [parts[|parts| - 1]], d);
  }

  /** `w` occurs in `s` starting at index `i`. */
  predicate OccursAt(s: string, w: string, i: int) {
    0 <= i && i + |w| <= |s| && s[i..i + |w|] == w
  }

  /** `w` occurs somewhere in `s` (case-sensitive substring containment). */
  predicate Contains(s: string, w: string) {
    exists i :: 0 <= i <= |s| - |w| && OccursAt(s, w, i)
  }

  /** A word cannot occur in a string that lacks one of its characters. */
  lemma AbsentCharacter(s: string, w: string, c: char)
    requires c in w && c !in s
    ensures !Contains(s, w)
  {
  }
}
