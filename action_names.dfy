/** The hidden service types of an action interface: "pkg/action/Fib_SendGoal"
    lives in the submodule "action._fib". This covers `_get_hidden_action_subname`
    with its two local helpers, `remove_autogenerated_suffixes` and
    `camel_to_snake_case`. */
module ActionNames {
  import opened Errors
  import opened PyStrings

  /** The marker `"._"` that introduces a hidden submodule. */
  const HiddenMarker: string := "._"

  /** The class-name suffixes of the generated services, in the order tried. */
  const AutogeneratedSuffixes: seq<string> := ["_SendGoal", "_GetResult"]

  // ASCII character classes, as the regular expression's [A-Z], [a-z] and [0-9].
  predicate IsUpper(c: char) { 'A' <= c <= 'Z' }
  predicate IsLower(c: char) { 'a' <= c <= 'z' }
  predicate IsDigit(c: char) { '0' <= c <= '9' }

  /** `str.lower` on one character, for ASCII letters. */
  function ToLower(c: char): (l: char)
    ensures !IsUpper(l)
  {
    if IsUpper(c) then (c as int + 32) as char else c
  }

  /** The whole string lower-cased. */
  function LowerAll(s: string): (l: string)
    ensures |l| == |s|
    ensures forall i :: 0 <= i < |s| ==> l[i] == ToLower(s[i])
  {
    if s == [] then [] else [ToLower(s[0])] + LowerAll(s[1..])
  }

  /** The string with every underscore deleted. */
  function DropUnderscores(s: string): string {
    if s == [] then [] else (if s[0] == '_' then [] else [s[0]]) + DropUnderscores(s[1..])
  }

  /** Where the pattern `(?<=[a-z0-9])[A-Z]|(?!^)[A-Z](?=[a-z])` matches: an
      upper-case letter that is not the first character and is preceded by a
      lower-case letter or digit, or followed by a lower-case letter. */
  predicate BreaksBefore(s: string, i: nat): (b: bool)
    requires i < |s|
    ensures b ==> 0 < i && IsUpper(s[i])
  {
    IsUpper(s[i]) && 0 < i &&
    (IsLower(s[i - 1]) || IsDigit(s[i - 1]) || (i + 1 < |s| && IsLower(s[i + 1])))
  }

  /** `camel_to_snake_case` from position `i` on: an underscore before every
      match, every character lower-cased. The look-behind and look-ahead see
      the original string, so the whole of `s` is passed along. */
  function SnakeFrom(s: string, i: nat): (snake: string)
    requires i <= |s|
    ensures |s| - i <= |snake| <= 2 * (|s| - i)
    decreases |s| - i
  {
    if i == |s| then "" else Piece(s, i) + SnakeFrom(s, i + 1)
  }

  /** What the character at position `i` becomes. */
  function Piece(s: string, i: nat): (p: string)
    requires i < |s|
    ensures |p| == 1 || (|p| == 2 && p[0] == '_')
    ensures |p| == 2 <==> BreaksBefore(s, i)
    ensures p[|p| - 1] == ToLower(s[i])
  {
    (if BreaksBefore(s, i) then "_" else "") + [ToLower(s[i])]
  }

  /** `camel_to_snake_case`: no upper-case letter is left, and every input
      character gives one or two output characters. */
  function CamelToSnake(camel: string): (snake: string)
    ensures |camel| <= |snake| <= 2 * |camel|
    ensures forall k :: 0 <= k < |snake| ==> !IsUpper(snake[k])
  {
    SnakeFromHasNoUpper(camel, 0);
    SnakeFrom(camel, 0)
  }

  /** The output of the conversion has no upper-case letter. */
  lemma {:induction false} SnakeFromHasNoUpper(s: string, i: nat)
    requires i <= |s|
    ensures forall k :: 0 <= k < |SnakeFrom(s, i)| ==> !IsUpper(SnakeFrom(s, i)[k])
    decreases |s| - i
  {
    if i < |s| {
      SnakeFromHasNoUpper(s, i + 1);
    }
  }

  /** A string without upper-case letters is left as it is. */
  lemma {:induction false} SnakeFromLowerUnchanged(s: string, i: nat)
    requires i <= |s|
    requires forall k :: i <= k < |s| ==> !IsUpper(s[k])
    ensures SnakeFrom(s, i) == s[i..]
    decreases |s| - i
  {
    if i < |s| {
      SnakeFromLowerUnchanged(s, i + 1);
      assert s[i..] == [s[i]] + s[i + 1..];
    }
  }

  lemma CamelToSnakeLowerUnchanged(s: string)
    requires forall k :: 0 <= k < |s| ==> !IsUpper(s[k])
    ensures CamelToSnake(s) == s
  {
    SnakeFromLowerUnchanged(s, 0);
  }

  /** Converting twice is converting once. */
  lemma CamelToSnakeIdempotent(camel: string)
    ensures CamelToSnake(CamelToSnake(camel)) == CamelToSnake(camel)
  {
    CamelToSnakeLowerUnchanged(CamelToSnake(camel));
  }

  /** Apart from the inserted underscores, the conversion only lower-cases:
      for a name without underscores, deleting them gives the lower-cased name. */
  lemma {:induction false} SnakeFromOnlyLowers(s: string, i: nat)
    requires i <= |s|
    requires '_' !in s
    ensures DropUnderscores(SnakeFrom(s, i)) == LowerAll(s[i..])
    decreases |s| - i
  {
    if i < |s| {
      SnakeFromOnlyLowers(s, i + 1);
      var head := Piece(s, i);
      DropUnderscoresAppend(head, SnakeFrom(s, i + 1));
      assert ToLower(s[i]) != '_';
      assert (s[i..])[0] == s[i] && (s[i..])[1..] == s[i + 1..];
    }
  }

  lemma CamelToSnakeOnlyLowers(camel: string)
    requires '_' !in camel
    ensures DropUnderscores(CamelToSnake(camel)) == LowerAll(camel)
  {
    SnakeFromOnlyLowers(camel, 0);
    assert camel[0..] == camel;
  }

  lemma {:induction false} DropUnderscoresAppend(a: string, b: string)
    ensures DropUnderscores(a + b) == DropUnderscores(a) + DropUnderscores(b)
    decreases |a|
  {
    if a == [] {
      assert a + b == b;
    } else {
      assert (a + b)[0] == a[0] && (a + b)[1..] == a[1..] + b;
      DropUnderscoresAppend(a[1..], b);
    }
  }

  /** Besides underscores and lower-case letters, the output holds only
      characters of the input. */
  lemma {:induction false} SnakeFromKeepsOthers(s: string, i: nat, c: char)
    requires i <= |s|
    requires c != '_' && !IsLower(c)
    requires c in SnakeFrom(s, i)
    ensures c in s[i..]
    decreases |s| - i
  {
    if i < |s| {
      var head := Piece(s, i);
      if c in head {
        assert c == ToLower(s[i]);
        assert s[i] == c;
        assert s[i..][0] == s[i];
      } else {
        SnakeFromKeepsOthers(s, i + 1, c);
        assert s[i + 1..] == s[i..][1..];
      }
    }
  }

  lemma CamelToSnakeKeepsOthers(camel: string, c: char)
    requires c != '_' && !IsLower(c)
    requires c in CamelToSnake(camel)
    ensures c in camel
  {
    SnakeFromKeepsOthers(camel, 0, c);
    assert camel[0..] == camel;
  }

  /** What a character becomes depends only on it and its two neighbours. */
  lemma PieceLocal(s: string, i: nat, t: string, j: nat)
    requires i < |s| && j < |t| && s[i] == t[j]
    requires i > 0 <==> j > 0
    requires i > 0 ==> s[i - 1] == t[j - 1]
    requires IsUpper(s[i]) ==> (i + 1 < |s| <==> j + 1 < |t|)
    requires IsUpper(s[i]) && i + 1 < |s| ==> s[i + 1] == t[j + 1]
    ensures Piece(s, i) == Piece(t, j)
  {
    assert BreaksBefore(s, i) == BreaksBefore(t, j);
  }

  /** Past the first character, the conversion from a position on depends
      only on the text from the character before it. */
  lemma {:induction false} SnakeFromAgree(s: string, i: nat, t: string, j: nat)
    requires 1 <= i <= |s| && 1 <= j <= |t|
    requires s[i - 1..] == t[j - 1..]
    ensures SnakeFrom(s, i) == SnakeFrom(t, j)
    decreases |s| - i
  {
    assert |s| - i == |t| - j;
    if i < |s| {
      assert s[i] == s[i - 1..][1] == t[j - 1..][1] == t[j];
      assert s[i - 1] == s[i - 1..][0] == t[j - 1..][0] == t[j - 1];
      if i + 1 < |s| {
        assert s[i + 1] == s[i - 1..][2] == t[j - 1..][2] == t[j + 1];
      }
      PieceLocal(s, i, t, j);
      assert s[i..] == s[i - 1..][1..] == t[j - 1..][1..] == t[j..];
      SnakeFromAgree(s, i + 1, t, j + 1);
    }
  }

  /** Past its first character, the conversion of a suffix of a string only
      looks at that suffix. */
  lemma SnakeFromShift(a: string, b: string, k: nat)
    requires 1 <= k <= |b|
    ensures SnakeFrom(a + b, |a| + k) == SnakeFrom(b, k)
  {
    assert (a + b)[|a| + k - 1..] == b[k - 1..];
    SnakeFromAgree(a + b, |a| + k, b, k);
  }

  /** Before a word boundary that ends in a character other than an upper-case
      letter, the conversion of a prefix is that prefix's own conversion. */
  lemma {:induction false} SnakeFromPrefix(a: string, b: string, i: nat)
    requires i <= |a|
    requires a != [] && !IsUpper(a[|a| - 1])
    ensures SnakeFrom(a + b, i) == SnakeFrom(a, i) + SnakeFrom(a + b, |a|)
    decreases |a| - i
  {
    if i < |a| {
      var s := a + b;
      assert s[i] == a[i] && (i > 0 ==> s[i - 1] == a[i - 1]);
      assert i + 1 < |a| ==> s[i + 1] == a[i + 1];
      PieceLocal(s, i, a, i);
      SnakeFromPrefix(a, b, i + 1);
      assert SnakeFrom(s, i) == Piece(a, i) + (SnakeFrom(a, i + 1) + SnakeFrom(s, |a|));
    }
  }

  /** The conversion works word by word: a word ending in a lower-case letter
      or a digit, followed by one starting with an upper-case letter, are
      converted separately and joined by one underscore. */
  lemma CamelToSnakeWords(a: string, b: string)
    requires a != [] && b != []
    requires IsLower(a[|a| - 1]) || IsDigit(a[|a| - 1])
    ensures CamelToSnake(a + b) == CamelToSnake(a) + (if IsUpper(b[0]) then "_" else "") + CamelToSnake(b)
  {
    var s := a + b;
    SnakeFromPrefix(a, b, 0);
    assert s[|a|] == b[0] && s[|a| - 1] == a[|a| - 1];
    SnakeFromShift(a, b, 1);
  }

  /** A capitalised word is lower-cased at its first letter and otherwise kept. */
  lemma CamelToSnakeCapitalised(w: string)
    requires w != []
    requires forall k :: 1 <= k < |w| ==> !IsUpper(w[k])
    ensures CamelToSnake(w) == [ToLower(w[0])] + w[1..]
  {
    SnakeFromLowerUnchanged(w, 1);
  }

  /** A word of an action name: an upper-case letter, then lower-case ones. */
  predicate IsCapitalisedWord(w: string) {
    |w| >= 2 && IsUpper(w[0]) && forall k :: 1 <= k < |w| ==> IsLower(w[k])
  }

  /** A capitalised word on its own is simply lower-cased. */
  lemma CapitalisedWordLowered(w: string)
    requires IsCapitalisedWord(w)
    ensures CamelToSnake(w) == LowerAll(w)
  {
    CamelToSnakeCapitalised(w);
    var l := LowerAll(w);
    assert forall k :: 1 <= k < |w| ==> l[k] == w[k];
    assert l == [l[0]] + l[1..];
  }

  /** Three capitalised words become their lower-cased forms joined by "_". */
  lemma CamelToSnakeOfWords(a: string, b: string, c: string)
    requires IsCapitalisedWord(a) && IsCapitalisedWord(b) && IsCapitalisedWord(c)
    ensures CamelToSnake(a + b + c) == LowerAll(a) + "_" + LowerAll(b) + "_" + LowerAll(c)
  {
    CapitalisedWordLowered(a);
    CapitalisedWordLowered(b);
    CapitalisedWordLowered(c);
    CamelToSnakeWords(b, c);
    assert (b + c)[0] == b[0];
    CamelToSnakeWords(a, b + c);
    assert a + b + c == a + (b + c);
  }

  /** Example: "NavigateToPose" becomes "navigate_to_pose". The words are
      parameters fixed by the precondition, so that the proof goes word by
      word instead of evaluating the literal. */
  lemma CamelToSnakeExample(navigate: string, to: string, pose: string)
    requires navigate == "Navigate" && to == "To" && pose == "Pose"
    ensures CamelToSnake(navigate + to + pose) == "navigate_to_pose"
  {
    CamelToSnakeCapitalised(navigate);
    assert CamelToSnake(navigate) == "navigate";
    CamelToSnakeCapitalised(to);
    assert CamelToSnake(to) == "to";
    CamelToSnakeCapitalised(pose);
    assert CamelToSnake(pose) == "pose";
    CamelToSnakeWords(to, pose);
    assert CamelToSnake(to + pose) == "to_pose";
    CamelToSnakeWords(navigate, to + pose);
    assert navigate + to + pose == navigate + (to + pose);
  }

  /** `classname[0 : -len(suffix)]` once `classname.endswith(suffix)`: the
      name with the suffix cut off. Python reads the stop index `-0` as 0, so
      an empty suffix leaves nothing. */
  function DropSuffix(classname: string, suffix: string): (r: string)
    requires EndsWith(classname, suffix)
    ensures suffix != "" ==> r + suffix == classname
    ensures suffix == "" ==> r == ""
  {
    if suffix == "" then "" else classname[..|classname| - |suffix|]
  }

  /** The `for s in autogenerated_suffixes` loop of `remove_autogenerated_suffixes`:
      the class name without the first of `suffixes` that it ends with. */
  function StripFirstSuffix(classname: string, suffixes: seq<string>): (r: Result<string>)
    ensures r.Ok? <==> exists k :: 0 <= k < |suffixes| && EndsWith(classname, suffixes[k])
    ensures r.Ok? ==>
      exists k :: && 0 <= k < |suffixes| && EndsWith(classname, suffixes[k])
                  && (forall j :: 0 <= j < k ==> !EndsWith(classname, suffixes[j]))
                  && r.value == DropSuffix(classname, suffixes[k])
    ensures r.Err? ==> r.error == InvalidActionInterface(classname)
  {
    if suffixes == [] then Err(InvalidActionInterface(classname))
    else if EndsWith(classname, suffixes[0]) then Ok(DropSuffix(classname, suffixes[0]))
    else
      var r := StripFirstSuffix(classname, suffixes[1..]);
      assert forall k :: 1 <= k < |suffixes| ==> suffixes[k] == suffixes[1..][k - 1];
      r
  }

  /** `remove_autogenerated_suffixes`: "_SendGoal" is tried first, then
      "_GetResult"; a name with neither raises InvalidActionInterface. */
  function RemoveAutogeneratedSuffixes(classname: string): (r: Result<string>)
    ensures EndsWith(classname, "_SendGoal") ==> r == Ok(classname[..|classname| - 9])
    ensures !EndsWith(classname, "_SendGoal") && EndsWith(classname, "_GetResult") ==>
      r == Ok(classname[..|classname| - 10])
    ensures !EndsWith(classname, "_SendGoal") && !EndsWith(classname, "_GetResult") ==>
      r == Err(InvalidActionInterface(classname))
  {
    var r := StripFirstSuffix(classname, AutogeneratedSuffixes);
    assert AutogeneratedSuffixes[0] == "_SendGoal" && AutogeneratedSuffixes[1] == "_GetResult";
    r
  }

  /** The last characters of a string and of a suffix it ends with agree. */
  lemma NotEndsWith(s: string, suffix: string)
    requires |s| > 0 && |suffix| > 0 && s[|s| - 1] != suffix[|suffix| - 1]
    ensures !EndsWith(s, suffix)
  {
    if |suffix| <= |s| {
      assert s[|s| - |suffix|..][|suffix| - 1] == s[|s| - 1];
    }
  }

  /** Removing a suffix undoes adding it. */
  lemma RemoveSuffixesRoundTrip(base: string)
    ensures RemoveAutogeneratedSuffixes(base + "_SendGoal") == Ok(base)
    ensures RemoveAutogeneratedSuffixes(base + "_GetResult") == Ok(base)
  {
    var goal := base + "_SendGoal";
    var result := base + "_GetResult";
    assert EndsWith(goal, "_SendGoal") && goal[..|goal| - 9] == base;
    NotEndsWith(result, "_SendGoal");
    assert EndsWith(result, "_GetResult") && result[..|result| - 10] == base;
  }

  /** `_get_hidden_action_subname`: the subname unchanged when it already
      names one hidden submodule, otherwise extended by "._" and the snake-case
      action name taken from the class name. */
  function HiddenActionSubname(subname: string, classname: string): (r: Result<string>)
    ensures |SplitOn(subname, HiddenMarker)| == 2 ==> r == Ok(subname)
    ensures |SplitOn(subname, HiddenMarker)| != 2 ==>
      && (EndsWith(classname, "_SendGoal") ==>
            r == Ok(subname + HiddenMarker + CamelToSnake(classname[..|classname| - 9])))
      && (!EndsWith(classname, "_SendGoal") && EndsWith(classname, "_GetResult") ==>
            r == Ok(subname + HiddenMarker + CamelToSnake(classname[..|classname| - 10])))
      && (!EndsWith(classname, "_SendGoal") && !EndsWith(classname, "_GetResult") ==>
            r == Err(InvalidActionInterface(classname)))
  {
    if |SplitOn(subname, HiddenMarker)| == 2 then Ok(subname)
    else match RemoveAutogeneratedSuffixes(classname)
      case Err(e) => Err(e)
      case Ok(base) => Ok(subname + HiddenMarker + CamelToSnake(base))
  }

  /** The hidden marker cannot start inside the text before it: splitting
      `a + "._" + b` finds the marker right after `a` when `a` has none. */
  lemma {:induction false} SplitOnMarkerAppend(a: string, b: string)
    requires SplitOn(a, HiddenMarker) == [a]
    ensures SplitOn(a + HiddenMarker + b, HiddenMarker) == [a] + SplitOn(b, HiddenMarker)
    decreases |a|
  {
    var s := a + HiddenMarker + b;
    if a == [] {
      assert s[..2] == HiddenMarker && s[2..] == b;
    } else {
      assert s[1..] == a[1..] + HiddenMarker + b;
      if |a| == 1 {
        assert s[1] == '.';
        assert s[..2] != HiddenMarker;
        assert a[1..] == [];
        assert SplitOn(a[1..], HiddenMarker) == [a[1..]];
      } else {
        assert s[..2] == a[..2];
        assert a[..2] != HiddenMarker;
        var ra := SplitOn(a[1..], HiddenMarker);
        assert SplitOn(a, HiddenMarker) == [[a[0]] + ra[0]] + ra[1..];
        assert |ra| == 1;
        assert SplitOn(a, HiddenMarker)[0] == a;
        assert ([[a[0]] + ra[0]] + ra[1..])[0] == [a[0]] + ra[0];
        assert [a[0]] + ra[0] == a;
        assert a == [a[0]] + a[1..];
        assert ra[0] == a[1..];
        assert ra == [a[1..]];
      }
      SplitOnMarkerAppend(a[1..], b);
      var rb := SplitOn(b, HiddenMarker);
      assert ([a[1..]] + rb)[0] == a[1..];
      assert ([a[1..]] + rb)[1..] == rb;
      assert [a[0]] + a[1..] == a;
    }
  }

  /** A string without a dot holds no hidden marker. */
  lemma {:induction false} SplitOnMarkerNoDot(s: string)
    requires '.' !in s
    ensures SplitOn(s, HiddenMarker) == [s]
    decreases |s|
  {
    if |s| >= 2 {
      assert s[..2] != HiddenMarker by { assert s[..2][0] == s[0]; }
      SplitOnMarkerNoDot(s[1..]);
      assert [s[0]] + s[1..] == s;
    }
  }

  /** The rewrite is idempotent: a subname without a hidden marker gets
      exactly one, after which the rewrite leaves it alone (for a class name
      without dots, the usual case). */
  lemma HiddenActionSubnameIdempotent(subname: string, classname: string)
    requires |SplitOn(subname, HiddenMarker)| == 1
    requires '.' !in classname
    requires HiddenActionSubname(subname, classname).Ok?
    ensures var extended := HiddenActionSubname(subname, classname).value;
      && |SplitOn(extended, HiddenMarker)| == 2
      && HiddenActionSubname(extended, classname) == Ok(extended)
  {
    var base := RemoveAutogeneratedSuffixes(classname).value;
    assert base == classname[..|base|];
    assert forall k :: 0 <= k < |base| ==> base[k] == classname[k];
    var snake := CamelToSnake(base);
    assert '.' !in snake by {
      if '.' in snake {
        CamelToSnakeKeepsOthers(base, '.');
      }
    }
    JoinSplitOn(subname, HiddenMarker);
    assert SplitOn(subname, HiddenMarker) == [subname];
    SplitOnMarkerAppend(subname, snake);
    SplitOnMarkerNoDot(snake);
  }

  /** The goal and result services of an action share one hidden submodule,
      named after the action in snake case. */
  lemma HiddenActionSubnameOfAction(subname: string, action: string)
    requires |SplitOn(subname, HiddenMarker)| != 2
    ensures HiddenActionSubname(subname, action + "_SendGoal") == Ok(subname + "._" + CamelToSnake(action))
    ensures HiddenActionSubname(subname, action + "_GetResult") == Ok(subname + "._" + CamelToSnake(action))
  {
    RemoveSuffixesRoundTrip(action);
  }

  /** Example: the goal service of NavigateToPose lives in the hidden
      submodule "action._navigate_to_pose" (parameters fixed as above). */
  lemma HiddenActionSubnameExample(subname: string, navigate: string, to: string, pose: string)
    requires subname == "action" && navigate == "Navigate" && to == "To" && pose == "Pose"
    ensures HiddenActionSubname(subname, navigate + to + pose + "_SendGoal") == Ok(subname + "._" + "navigate_to_pose")
  {
    SplitOnMarkerNoDot(subname);
    CamelToSnakeExample(navigate, to, pose);
    HiddenActionSubnameOfAction(subname, navigate + to + pose);
  }

  /** A class name with neither suffix is refused. */
  lemma HiddenActionSubnameRefusesFeedback()
    ensures HiddenActionSubname("action", "NavigateToPose_FeedbackMessage") ==
      Err(InvalidActionInterface("NavigateToPose_FeedbackMessage"))
  {
    var c := "NavigateToPose_FeedbackMessage";
    SplitOnMarkerNoDot("action");
    NotEndsWith(c, "_SendGoal");
    NotEndsWith(c, "_GetResult");
  }
}
