/** The few Python string operations the loader relies on: `str.split` with a
    separator, `str.join`, `str.endswith` and the filter `[x for x in xs if x]`. */
module PyStrings {

  /** `s.split(sep)`: the pieces between the leftmost non-overlapping
      occurrences of `sep`, scanning from the left. Python refuses an empty
      separator, hence the precondition. */
  function SplitOn(s: string, sep: string): (pieces: seq<string>)
    requires sep != ""
    ensures |pieces| >= 1
    decreases |s|
  {
    if |s| < |sep| then [s]
    else if s[..|sep|] == sep then [""] + SplitOn(s[|sep|..], sep)
    else
      var rest := SplitOn(s[1..], sep);
      rest[0 := [s[0]] + rest[0]]
  }

  /** `sep.join(pieces)`: it starts with the first piece. */
  function Join(pieces: seq<string>, sep: string): (s: string)
    ensures |pieces| > 0 ==> |pieces[0]| <= |s| && s[..|pieces[0]|] == pieces[0]
    decreases |pieces|
  {
    if |pieces| == 0 then ""
    else if |pieces| == 1 then pieces[0]
    else pieces[0] + sep + Join(pieces[1..], sep)
  }

  /** `[x for x in xs if x]`: the non-empty strings of `xs`, in order. */
  function NonEmpty(xs: seq<string>): (ys: seq<string>)
    ensures |ys| <= |xs|
    ensures forall i :: 0 <= i < |ys| ==> ys[i] != "" && ys[i] in xs
  {
    if xs == [] then []
    else (if xs[0] == "" then [] else [xs[0]]) + NonEmpty(xs[1..])
  }

  /** `s.endswith(suffix)`: `s` is some text followed by `suffix`. */
  predicate EndsWith(s: string, suffix: string): (b: bool)
    ensures b <==> |suffix| <= |s| && s == s[..|s| - |suffix|] + suffix
  {
    |suffix| <= |s| && s[|s| - |suffix|..] == suffix
  }

  /** `sep` occurs in `s` starting at index `j`. */
  predicate OccursAt(s: string, sep: string, j: nat) {
    j + |sep| <= |s| && s[j..j + |sep|] == sep
  }

  /** `sep in s`. */
  predicate Contains(s: string, sep: string) {
    exists j: nat :: j <= |s| && OccursAt(s, sep, j)
  }

  /** The split `p` of `s` is leftmost at its first piece: that piece is a
      prefix of `s` in which no occurrence of `sep` starts; it is all of `s`
      when there is no other piece, and otherwise `sep` follows it and the
      remaining pieces are the split of what comes after. */
  predicate FirstPieceLeftmost(s: string, sep: string, p: seq<string>)
    requires sep != "" && |p| >= 1
  {
    && |p[0]| <= |s| && s[..|p[0]|] == p[0]
    && (forall j: nat :: j < |p[0]| ==> !OccursAt(s, sep, j))
    && (|p| == 1 ==> p[0] == s)
    && (|p| > 1 ==> OccursAt(s, sep, |p[0]|) && p[1..] == SplitOn(s[|p[0]| + |sep|..], sep))
  }

  /** `s.split(sep)` cuts at the leftmost occurrence of `sep`, and then again
      in what follows it. */
  lemma {:induction false} SplitOnFirstPiece(s: string, sep: string)
    requires sep != ""
    ensures FirstPieceLeftmost(s, sep, SplitOn(s, sep))
    decreases |s|
  {
    if |s| < |sep| {
    } else if s[..|sep|] == sep {
      assert OccursAt(s, sep, 0);
    } else {
      SplitOnFirstPiece(s[1..], sep);
      var rest := SplitOn(s[1..], sep);
      FirstPieceStep(s, sep, rest);
    }
  }

  /** The inductive step of SplitOnFirstPiece: a character that starts no
      occurrence joins the first piece. */
  lemma FirstPieceStep(s: string, sep: string, rest: seq<string>)
    requires sep != "" && |s| >= 1 && |rest| >= 1
    requires !OccursAt(s, sep, 0)
    requires FirstPieceLeftmost(s[1..], sep, rest)
    ensures FirstPieceLeftmost(s, sep, rest[0 := [s[0]] + rest[0]])
  {
    var p := rest[0 := [s[0]] + rest[0]];
    assert s[..|p[0]|] == [s[0]] + s[1..][..|rest[0]|];
    forall j: nat | j < |p[0]|
      ensures !OccursAt(s, sep, j)
    {
      if j > 0 {
        OccursAtTail(s, sep, j);
      }
    }
    if |p| > 1 {
      OccursAtTail(s, sep, |p[0]|);
      assert s[1..][|rest[0]| + |sep|..] == s[|p[0]| + |sep|..];
      assert p[1..] == rest[1..];
    } else {
      assert s == [s[0]] + s[1..];
    }
  }

  /** An occurrence in a prefix is an occurrence in the whole string. */
  lemma OccursInPrefix(s: string, q: string, sep: string, j: nat)
    requires sep != "" && |q| <= |s| && s[..|q|] == q && OccursAt(q, sep, j)
    ensures j < |q| && OccursAt(s, sep, j)
  {
    assert q[j..j + |sep|] == s[j..j + |sep|];
  }

  /** Occurrences past the first character are occurrences in the tail. */
  lemma OccursAtTail(s: string, sep: string, j: nat)
    requires 0 < j && s != []
    ensures OccursAt(s, sep, j) <==> OccursAt(s[1..], sep, j - 1)
  {
    if j + |sep| <= |s| {
      assert s[j..j + |sep|] == s[1..][j - 1..j - 1 + |sep|];
    }
  }

  /** No piece of a split contains the separator, whatever its length. */
  lemma {:induction false} SplitOnPiecesAvoidSep(s: string, sep: string)
    requires sep != ""
    ensures forall i :: 0 <= i < |SplitOn(s, sep)| ==> !Contains(SplitOn(s, sep)[i], sep)
    decreases |s|
  {
    var p := SplitOn(s, sep);
    SplitOnFirstPiece(s, sep);
    assert FirstPieceLeftmost(s, sep, p);
    if Contains(p[0], sep) {
      var j: nat :| j <= |p[0]| && OccursAt(p[0], sep, j);
      OccursInPrefix(s, p[0], sep, j);
    }
    if |p| > 1 {
      var after := s[|p[0]| + |sep|..];
      SplitOnPiecesAvoidSep(after, sep);
      assert forall i :: 1 <= i < |p| ==> p[i] == SplitOn(after, sep)[i - 1];
    }
  }

  /** Joining the pieces of a split with the same separator gives back the string. */
  lemma {:induction false} JoinSplitOn(s: string, sep: string)
    requires sep != ""
    ensures Join(SplitOn(s, sep), sep) == s
    decreases |s|
  {
    if |s| < |sep| {
    } else if s[..|sep|] == sep {
      var rest := SplitOn(s[|sep|..], sep);
      JoinSplitOn(s[|sep|..], sep);
      assert SplitOn(s, sep) == [""] + rest;
      JoinEmptyFirst(rest, sep);
      assert s == s[..|sep|] + s[|sep|..];
    } else {
      var rest := SplitOn(s[1..], sep);
      JoinSplitOn(s[1..], sep);
      JoinPrepend(s[0], rest, sep);
      assert s == [s[0]] + s[1..];
    }
  }

  /** An empty first piece contributes only the separator to the join. */
  lemma JoinEmptyFirst(xs: seq<string>, sep: string)
    requires |xs| >= 1
    ensures Join([""] + xs, sep) == sep + Join(xs, sep)
  {
    assert ([""] + xs)[1..] == xs;
  }

  /** Prepending a character to the first piece prepends it to the join. */
  lemma JoinPrepend(c: char, xs: seq<string>, sep: string)
    requires |xs| >= 1
    ensures Join(xs[0 := [c] + xs[0]], sep) == [c] + Join(xs, sep)
  {
    var ys := xs[0 := [c] + xs[0]];
    if |xs| > 1 {
      assert ys[1..] == xs[1..];
    }
  }

  /** One step of a split on a single character. */
  lemma SplitOnCons(x: char, rest: string, c: char)
    ensures SplitOn([x] + rest, [c]) ==
      if x == c then [""] + SplitOn(rest, [c])
      else SplitOn(rest, [c])[0 := [x] + SplitOn(rest, [c])[0]]
  {
    var s := [x] + rest;
    assert s[..1] == [x] && s[1..] == rest;
  }

  /** Splitting on a single character distributes over an occurrence of it. */
  lemma {:induction false} SplitOnAppend(a: string, c: char, b: string)
    ensures SplitOn(a + [c] + b, [c]) == SplitOn(a, [c]) + SplitOn(b, [c])
    decreases |a|
  {
    if a == [] {
      SplitOnCons(c, b, c);
      assert a + [c] + b == [c] + b;
    } else {
      var x, rest := a[0], a[1..];
      var tail := rest + [c] + b;
      ConsAppend(a, c, b);
      SplitOnAppend(rest, c, b);
      var ra, rb := SplitOn(rest, [c]), SplitOn(b, [c]);
      if x == c {
        SplitOnAppendSeparator(rest, c, tail, ra, rb);
      } else {
        SplitOnAppendOther(x, rest, c, tail, ra, rb);
      }
    }
  }

  lemma ConsAppend(a: string, c: char, b: string)
    requires a != []
    ensures a + [c] + b == [a[0]] + (a[1..] + [c] + b)
    ensures a == [a[0]] + a[1..]
  {
  }

  /** The inductive step of SplitOnAppend when the new first character is the separator. */
  lemma SplitOnAppendSeparator(rest: string, c: char, tail: string, ra: seq<string>, rb: seq<string>)
    requires SplitOn(tail, [c]) == ra + rb && SplitOn(rest, [c]) == ra
    ensures SplitOn([c] + tail, [c]) == SplitOn([c] + rest, [c]) + rb
  {
    SplitOnCons(c, tail, c);
    SplitOnCons(c, rest, c);
    PrependOfAppend(ra, rb, "");
  }

  /** The inductive step of SplitOnAppend when the new first character is another one. */
  lemma SplitOnAppendOther(x: char, rest: string, c: char, tail: string, ra: seq<string>, rb: seq<string>)
    requires x != c
    requires SplitOn(tail, [c]) == ra + rb && SplitOn(rest, [c]) == ra
    ensures SplitOn([x] + tail, [c]) == SplitOn([x] + rest, [c]) + rb
  {
    SplitOnCons(x, tail, c);
    SplitOnCons(x, rest, c);
    UpdateFirstOfAppend(ra, rb, [x] + ra[0]);
  }

  lemma PrependOfAppend(xs: seq<string>, ys: seq<string>, x: string)
    ensures [x] + (xs + ys) == ([x] + xs) + ys
  {
  }

  lemma UpdateFirstOfAppend(xs: seq<string>, ys: seq<string>, x: string)
    requires |xs| >= 1
    ensures (xs + ys)[0 := x] == xs[0 := x] + ys
  {
  }

  /** A string without the separator character splits into itself alone. */
  lemma {:induction false} SplitOnAbsent(s: string, c: char)
    requires c !in s
    ensures SplitOn(s, [c]) == [s]
    decreases |s|
  {
    if |s| >= 1 {
      assert s[..1] != [c] by { assert s[..1][0] == s[0]; }
      SplitOnAbsent(s[1..], c);
      assert [s[0]] + s[1..] == s;
    }
  }

  /** No piece of a split on one character contains that character. */
  lemma {:induction false} SplitOnPiecesAvoid(s: string, c: char)
    ensures forall i :: 0 <= i < |SplitOn(s, [c])| ==> c !in SplitOn(s, [c])[i]
    decreases |s|
  {
    if |s| >= 1 {
      SplitOnPiecesAvoid(s[1..], c);
      if s[..1] != [c] {
        assert s[0] != c by { assert s[..1] == [s[0]]; }
        var rest := SplitOn(s[1..], [c]);
        assert c !in [s[0]] + rest[0];
      }
    }
  }

  /** Splitting a join undoes it when no piece contains the separator character. */
  lemma {:induction false} SplitOnJoin(xs: seq<string>, c: char)
    requires |xs| >= 1
    requires forall i :: 0 <= i < |xs| ==> c !in xs[i]
    ensures SplitOn(Join(xs, [c]), [c]) == xs
    decreases |xs|
  {
    if |xs| == 1 {
      SplitOnAbsent(xs[0], c);
    } else {
      SplitOnJoin(xs[1..], c);
      SplitOnAppend(xs[0], c, Join(xs[1..], [c]));
      SplitOnAbsent(xs[0], c);
      assert [xs[0]] + xs[1..] == xs;
    }
  }

  /** The filter distributes over concatenation. */
  lemma {:induction false} NonEmptyAppend(xs: seq<string>, ys: seq<string>)
    ensures NonEmpty(xs + ys) == NonEmpty(xs) + NonEmpty(ys)
    decreases |xs|
  {
    if xs != [] {
      assert (xs + ys)[0] == xs[0];
      assert (xs + ys)[1..] == xs[1..] + ys;
      NonEmptyAppend(xs[1..], ys);
    } else {
      assert xs + ys == ys;
    }
  }

  /** The filter keeps a list of non-empty strings as it is. */
  lemma {:induction false} NonEmptyKeeps(xs: seq<string>)
    requires forall i :: 0 <= i < |xs| ==> xs[i] != ""
    ensures NonEmpty(xs) == xs
    decreases |xs|
  {
    if xs != [] {
      NonEmptyKeeps(xs[1..]);
      assert [xs[0]] + xs[1..] == xs;
    }
  }
}
