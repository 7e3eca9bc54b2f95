/** Parsing of ROS type strings such as "pkg/msg/Name" or
    "pkg/action/Fib_SendGoal": the slash-separated segments, the
    (package, class) pair of `_splittype`, the normalised key "pkg/Cls" and
    the subname inferred from the middle segments. */
module TypeStrings {
  import opened Errors
  import opened PyStrings

  /** A segment as the parser leaves it: non-empty and free of slashes. */
  predicate IsSegment(p: string) {
    p != "" && '/' !in p
  }

  /** `[x for x in typestring.split("/") if x]`. */
  function Segments(typestring: string): (parts: seq<string>)
    ensures forall i :: 0 <= i < |parts| ==> IsSegment(parts[i])
  {
    var pieces := SplitOn(typestring, "/");
    SplitOnPiecesAvoid(typestring, '/');
    NonEmpty(pieces)
  }

  /** The three shapes `_splittype` accepts. */
  predicate IsValidShape(parts: seq<string>) {
    |parts| == 2 || |parts| == 3 || (|parts| == 4 && parts[1] == "action")
  }

  /** `_splittype`: the package (first segment) and the class (last segment),
      or InvalidTypeString for any other shape. */
  function SplitType(typestring: string): (r: Result<(string, string)>)
    ensures var parts := Segments(typestring);
      && (r.Ok? <==> IsValidShape(parts))
      && (r.Ok? ==> r.value == (parts[0], parts[|parts| - 1]))
      && (r.Err? ==> r.error == InvalidTypeString(typestring))
  {
    var parts := Segments(typestring);
    if |parts| == 3 then Ok((parts[0], parts[2]))
    else if |parts| == 2 then Ok((parts[0], parts[1]))
    else if |parts| == 4 && parts[1] == "action" then Ok((parts[0], parts[3]))
    else Err(InvalidTypeString(typestring))
  }

  /** `modname + "/" + classname`, the second cache key. */
  function NormalizedKey(modname: string, classname: string): (key: string)
    ensures |key| == |modname| + 1 + |classname| && key[|modname|] == '/'
    ensures key[..|modname|] == modname && key[|modname| + 1..] == classname
  {
    modname + "/" + classname
  }

  /** The subname inferred from the segments: the dot-join of the segments
      strictly between the first and the last, or `default` ("msg" for
      messages, "srv" for services) when there are at most two. */
  function InferredSubname(parts: seq<string>, default: string): (sub: string)
    ensures |parts| <= 2 ==> sub == default
  {
    if |parts| > 2 then Join(parts[1..|parts| - 1], ".") else default
  }

  /** Segments of a concatenation around a slash are the segments of each side. */
  lemma SegmentsAppend(a: string, b: string)
    ensures Segments(a + "/" + b) == Segments(a) + Segments(b)
  {
    SplitOnAppend(a, '/', b);
    NonEmptyAppend(SplitOn(a, "/"), SplitOn(b, "/"));
  }

  /** An empty string has no segments. */
  lemma SegmentsEmpty()
    ensures Segments("") == []
  {
    assert SplitOn("", "/") == [""];
  }

  /** Empty segments are discarded: a leading slash changes nothing. */
  lemma LeadingSlashDiscarded(a: string)
    ensures Segments("/" + a) == Segments(a)
  {
    SegmentsEmpty();
    SegmentsAppend("", a);
    assert "" + "/" + a == "/" + a;
  }

  /** Empty segments are discarded: a trailing slash changes nothing. */
  lemma TrailingSlashDiscarded(a: string)
    ensures Segments(a + "/") == Segments(a)
  {
    SegmentsEmpty();
    SegmentsAppend(a, "");
    assert a + "/" + "" == a + "/";
  }

  /** Empty segments are discarded: a doubled slash counts as one. */
  lemma DoubleSlashDiscarded(a: string, b: string)
    ensures Segments(a + "//" + b) == Segments(a + "/" + b)
  {
    var c := "/" + b;
    DoubleSlashSpelling(a, b);
    SegmentsAppend(a, c);
    LeadingSlashDiscarded(b);
    SegmentsAppend(a, b);
  }

  lemma DoubleSlashSpelling(a: string, b: string)
    ensures a + "/" + ("/" + b) == a + "//" + b
  {
  }

  /** The three spellings "pkg//Cls", "/pkg/Cls/" and "pkg/Cls" (for any
      segments pkg and Cls) have the same parts and the same (package, class). */
  lemma SlashSpellingsAgree(pkg: string, cls: string)
    requires IsSegment(pkg) && IsSegment(cls)
    ensures Segments(pkg + "//" + cls) == Segments("/" + pkg + "/" + cls + "/") == Segments(pkg + "/" + cls) == [pkg, cls]
    ensures SplitType(pkg + "//" + cls) == SplitType("/" + pkg + "/" + cls + "/") == SplitType(pkg + "/" + cls) == Ok((pkg, cls))
  {
    DoubleSlashDiscarded(pkg, cls);
    TrailingSlashDiscarded(pkg + "/" + cls);
    LeadingSlashDiscarded(pkg + "/" + cls + "/");
    assert "/" + pkg + "/" + cls + "/" == "/" + (pkg + "/" + cls + "/");
    SegmentOfSegment(pkg);
    SegmentOfSegment(cls);
    SegmentsAppend(pkg, cls);
  }

  /** A single segment parses as itself. */
  lemma SegmentOfSegment(p: string)
    requires IsSegment(p)
    ensures Segments(p) == [p]
  {
    SplitOnAbsent(p, '/');
  }

  /** Joining segments with slashes and parsing again gives the segments back. */
  lemma SegmentsJoin(parts: seq<string>)
    requires forall i :: 0 <= i < |parts| ==> IsSegment(parts[i])
    ensures Segments(Join(parts, "/")) == parts
  {
    if parts == [] {
    } else {
      SplitOnJoin(parts, '/');
      NonEmptyKeeps(parts);
    }
  }

  /** The normalised key is a fixed point of normalisation: it parses to the
      same (package, class) pair, as two segments. */
  lemma NormalizedKeyStable(typestring: string)
    requires SplitType(typestring).Ok?
    ensures var (modname, classname) := SplitType(typestring).value;
      && Segments(NormalizedKey(modname, classname)) == [modname, classname]
      && SplitType(NormalizedKey(modname, classname)) == Ok((modname, classname))
  {
    var (modname, classname) := SplitType(typestring).value;
    var parts := Segments(typestring);
    assert IsSegment(parts[0]) && IsSegment(parts[|parts| - 1]);
    SegmentsAppend(modname, classname);
    SegmentOfSegment(modname);
    SegmentOfSegment(classname);
  }

  /** With more than two parts the subname names exactly the middle segments:
      splitting it on "." gives them back when none of them holds a dot. */
  lemma InferredSubnameMiddle(parts: seq<string>, default: string)
    requires |parts| > 2
    requires forall i :: 1 <= i < |parts| - 1 ==> '.' !in parts[i]
    ensures SplitOn(InferredSubname(parts, default), ".") == parts[1..|parts| - 1]
  {
    var middle := parts[1..|parts| - 1];
    assert forall i :: 0 <= i < |middle| ==> middle[i] == parts[i + 1];
    SplitOnJoin(middle, '.');
  }

  /** Three segments give the middle one as the subname. */
  lemma InferredSubnameThree(pkg: string, sub: string, cls: string, default: string)
    ensures InferredSubname([pkg, sub, cls], default) == sub
  {
    assert [pkg, sub, cls][1..2] == [sub];
  }
}
