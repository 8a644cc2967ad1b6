/** The java.lang.String operations the route configurer decides with, with their JDK meaning:
    `endsWith`, `contains`, `replace` of one character, `split` on a one-character separator
    (which drops trailing empty pieces, and returns the whole string when the separator does not
    occur) and the joining done by `StringJoiner`. */
module JavaStrings {

  /** String.endsWith. */
  predicate EndsWith(s: string, suffix: string) {
    |suffix| <= |s| && s[|s| - |suffix|..] == suffix
  }

  /** `t` occurs in `s` starting at index `i`. */
  predicate OccursAt(s: string, t: string, i: int) {
    0 <= i && i + |t| <= |s| && s[i..i + |t|] == t
  }

  /** String.contains. */
  predicate Contains(s: string, t: string) {
    exists i | 0 <= i <= |s| :: OccursAt(s, t, i)
  }

  /** String.replace(char, char): every `a` becomes `b`. */
  function ReplaceChar(s: string, a: char, b: char): (r: string)
    ensures |r| == |s|
    ensures forall i :: 0 <= i < |s| ==> r[i] == (if s[i] == a then b else s[i])
    ensures a != b ==> a !in r
  {
    if s == [] then "" else [if s[0] == a then b else s[0]] + ReplaceChar(s[1..], a, b)
  }

  /** The pieces of `s` between the occurrences of `c`, all of them, empty ones included. */
  function Pieces(s: string, c: char): (r: seq<string>)
    ensures |r| >= 1
    ensures forall i :: 0 <= i < |r| ==> c !in r[i]
  {
    if s == [] then [""]
    else
      var rest := Pieces(s[1..], c);
      if s[0] == c then [""] + rest else [[s[0]] + rest[0]] + rest[1..]
  }

  /** StringJoiner with delimiter `c`: the pieces of `xs` separated by `c`. */
  function Join(xs: seq<string>, c: char): string {
    if xs == [] then ""
    else if |xs| == 1 then xs[0]
    else xs[0] + [c] + Join(xs[1..], c)
  }

  /** The longest prefix of `xs` that does not end in an empty string. */
  function DropTrailingEmpty(xs: seq<string>): (r: seq<string>)
    ensures r <= xs
    ensures r == [] || r[|r| - 1] != ""
    ensures forall i :: |r| <= i < |xs| ==> xs[i] == ""
  {
    if xs == [] || xs[|xs| - 1] != "" then xs else DropTrailingEmpty(xs[..|xs| - 1])
  }

  /** String.split with a one-character separator: the whole string when `c` does not occur in
      it, otherwise its pieces without the trailing empty ones (so possibly none at all). */
  function Split(s: string, c: char): seq<string> {
    if c !in s then [s] else DropTrailingEmpty(Pieces(s, c))
  }

  // ---------------------------------------------------------------------------------------
  // Joining the pieces gives the string back, and splitting a join gives the parts back

  lemma {:induction false} JoinPieces(s: string, c: char)
    ensures Join(Pieces(s, c), c) == s
  {
    if s != [] {
      var rest := Pieces(s[1..], c);
      JoinPieces(s[1..], c);
      if s[0] == c {
        assert ([""] + rest)[1..] == rest;
      } else if |rest| > 1 {
        var p := [[s[0]] + rest[0]] + rest[1..];
        assert p[1..] == rest[1..];
        assert Join(p, c) == [s[0]] + (rest[0] + [c] + Join(rest[1..], c));
      }
      assert s == [s[0]] + s[1..];
    }
  }

  /** A prefix free of the separator only lengthens the first piece. */
  lemma {:induction false} PiecesPrefix(a: string, t: string, c: char)
    requires c !in a
    ensures Pieces(a + t, c) == [a + Pieces(t, c)[0]] + Pieces(t, c)[1..]
  {
    if a != [] {
      PiecesPrefix(a[1..], t, c);
      assert (a + t)[1..] == a[1..] + t;
      var rest := Pieces(a[1..] + t, c);
      assert rest[0] == a[1..] + Pieces(t, c)[0] && rest[1..] == Pieces(t, c)[1..];
      assert Pieces(a + t, c) == [[a[0]] + rest[0]] + rest[1..];
      assert [a[0]] + (a[1..] + Pieces(t, c)[0]) == a + Pieces(t, c)[0];
    } else {
      assert a + t == t && a + Pieces(t, c)[0] == Pieces(t, c)[0];
      assert Pieces(t, c) == [Pieces(t, c)[0]] + Pieces(t, c)[1..];
    }
  }

  lemma {:induction false} PiecesJoin(xs: seq<string>, c: char)
    requires |xs| >= 1 && forall i :: 0 <= i < |xs| ==> c !in xs[i]
    ensures Pieces(Join(xs, c), c) == xs
  {
    if |xs| == 1 {
      PiecesPrefix(xs[0], "", c);
      assert xs[0] + "" == xs[0];
    } else {
      var tail := Join(xs[1..], c);
      PiecesJoin(xs[1..], c);
      assert ([c] + tail)[1..] == tail;
      assert Pieces([c] + tail, c) == [""] + xs[1..];
      PiecesPrefix(xs[0], [c] + tail, c);
      assert xs[0] + ([c] + tail) == Join(xs, c);
      assert xs[0] + "" == xs[0];
      assert xs == [xs[0]] + xs[1..];
    }
  }

  lemma {:induction false} PiecesWithoutSeparator(s: string, c: char)
    requires c !in s
    ensures Pieces(s, c) == [s]
  {
    PiecesPrefix(s, "", c);
    assert s + "" == s;
  }

  /** Split keeps every piece up to the last non-empty one; everything it drops is empty. */
  lemma SplitIsPrefixOfPieces(s: string, c: char)
    ensures Split(s, c) <= Pieces(s, c)
    ensures forall i :: |Split(s, c)| <= i < |Pieces(s, c)| ==> Pieces(s, c)[i] == ""
    ensures forall i :: 0 <= i < |Split(s, c)| ==> c !in Split(s, c)[i]
  {
    if c !in s {
      PiecesWithoutSeparator(s, c);
    }
  }

  /** Splitting a join gives back the parts, unless the join ends in empty parts that split drops. */
  lemma SplitJoin(xs: seq<string>, c: char)
    requires |xs| >= 1 && forall i :: 0 <= i < |xs| ==> c !in xs[i]
    requires |xs| == 1 || xs[|xs| - 1] != ""
    ensures Split(Join(xs, c), c) == xs
  {
    if |xs| == 1 {
      assert Join(xs, c) == xs[0];
    } else {
      assert Join(xs, c) == xs[0] + [c] + Join(xs[1..], c);
      assert Join(xs, c)[|xs[0]|] == c;
      PiecesJoin(xs, c);
    }
  }

  /** A joined list is empty only when it has no parts or a single empty one. */
  lemma {:induction false} JoinEmpty(xs: seq<string>, c: char)
    ensures Join(xs, c) == "" <==> xs == [] || xs == [""]
  {
    if |xs| > 1 {
      assert |Join(xs, c)| >= 1;
    }
  }

  // ---------------------------------------------------------------------------------------
  // Every part of a split occurs in the split string

  lemma {:induction false} JoinHasPart(xs: seq<string>, c: char, i: nat)
    requires i < |xs|
    ensures exists pre, post :: Join(xs, c) == pre + xs[i] + post
  {
    if |xs| == 1 {
      assert Join(xs, c) == "" + xs[i] + "";
    } else if i == 0 {
      assert Join(xs, c) == "" + xs[0] + ([c] + Join(xs[1..], c));
    } else {
      JoinHasPart(xs[1..], c, i - 1);
      var pre, post :| Join(xs[1..], c) == pre + xs[1..][i - 1] + post;
      assert Join(xs, c) == (xs[0] + [c] + pre) + xs[i] + post;
    }
  }

  lemma ContainsEnd(pre: string, u: string, t: string, post: string)
    ensures Contains(pre + u + t + post, t)
  {
    var s := pre + u + t + post;
    var k := |pre| + |u|;
    assert s[k..k + |t|] == t;
    assert OccursAt(s, t, k);
  }

  lemma JoinPartEndsWith(xs: seq<string>, c: char, i: nat, t: string)
    requires i < |xs| && EndsWith(xs[i], t)
    ensures Contains(Join(xs, c), t)
  {
    JoinHasPart(xs, c, i);
    var pre, post :| Join(xs, c) == pre + xs[i] + post;
    var u := xs[i][..|xs[i]| - |t|];
    assert xs[i] == u + t;
    assert pre + xs[i] + post == pre + u + t + post;
    ContainsEnd(pre, u, t, post);
  }

  /** A part of a split that ends in `t` shows that the whole string contains `t`. */
  lemma SplitPartEndsWith(s: string, c: char, i: nat, t: string)
    requires i < |Split(s, c)| && EndsWith(Split(s, c)[i], t)
    ensures Contains(s, t)
  {
    SplitIsPrefixOfPieces(s, c);
    JoinPieces(s, c);
    assert Split(s, c)[i] == Pieces(s, c)[i];
    JoinPartEndsWith(Pieces(s, c), c, i, t);
  }
}
