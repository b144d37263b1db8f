/** The canonical comparison key of a raw team name (`clean` in
    src/lib/classify.ts): lower-cased, spaces and asterisks removed, and the
    `/`-separated player names sorted and rejoined. */
module Normalize {
  import opened Strings

  predicate IsUpper(c: char) {
    'A' <= c <= 'Z'
  }

  /** ASCII case folding; the model's stand-in for `toLowerCase`. */
  function LowerChar(c: char): char {
    if IsUpper(c) then (c as int + 32) as char else c
  }

  function Lower(s: string): (r: string)
    ensures |r| == |s|
    ensures forall i :: 0 <= i < |s| ==> !IsUpper(r[i])
    ensures forall i :: 0 <= i < |s| ==> !IsUpper(s[i]) ==> r[i] == s[i]
    ensures forall i :: 0 <= i < |s| ==> IsUpper(s[i]) ==> r[i] as int == s[i] as int + 32
  {
    seq(|s|, i requires 0 <= i < |s| => LowerChar(s[i]))
  }

  /** `replace(/[ *]/g, '')`: drops every space and asterisk. */
  function Strip(s: string): (r: string)
    ensures |r| <= |s|
    ensures forall c :: c in r <==> c in s && c != ' ' && c != '*'
  {
    if |s| == 0 then ""
    else if s[0] == ' ' || s[0] == '*' then Strip(s[1..])
    else [s[0]] + Strip(s[1..])
  }

  /** The player names of a raw name after case folding and stripping, in
      their original order. */
  function Segments(txt: string): seq<string> {
    Split(Strip(Lower(txt)), "/")
  }

  predicate IsKeyChar(c: char) {
    c != ' ' && c != '*' && !IsUpper(c)
  }

  function Clean(txt: string): (key: string)
    ensures forall c :: c in key ==> IsKeyChar(c)
  {
    var segs := Sort(Segments(txt));
    SegmentChars(txt, segs);
    Join(segs, "/")
  }

  lemma {:induction false} LowerChars(s: string, c: char)
    requires c in Lower(s)
    ensures !IsUpper(c)
  {
    var i :| 0 <= i < |s| && Lower(s)[i] == c;
  }

  lemma {:induction false} StripChars(s: string, c: char)
    requires c in Strip(s)
    ensures c in s && c != ' ' && c != '*'
    decreases |s|
  {
    if |s| > 0 {
      if s[0] == ' ' || s[0] == '*' || c != s[0] {
        StripChars(s[1..], c);
      }
    }
  }

  /** Every character of a join of permuted segments is a key character. */
  lemma SegmentChars(txt: string, segs: seq<string>)
    requires multiset(segs) == multiset(Segments(txt))
    ensures forall c :: c in Join(segs, "/") ==> IsKeyChar(c)
  {
    var base := Strip(Lower(txt));
    forall c | c in Join(segs, "/")
      ensures IsKeyChar(c)
    {
      JoinChars(segs, "/", c);
      if c != '/' {
        var k :| 0 <= k < |segs| && c in segs[k];
        assert segs[k] in multiset(Segments(txt));
        var m :| 0 <= m < |Segments(txt)| && Segments(txt)[m] == segs[k];
        SplitChars(base, "/", m, c);
        StripChars(Lower(txt), c);
        LowerChars(txt, c);
      }
    }
  }

  /** Removing spaces and asterisks from a string that has none changes
      nothing, and neither does folding a string without upper case. */
  lemma {:induction false} StripLowerOfKey(s: string)
    requires forall c :: c in s ==> IsKeyChar(c)
    ensures Strip(Lower(s)) == s
  {
    forall i | 0 <= i < |s|
      ensures Lower(s)[i] == s[i]
    {
      assert s[i] in s;
    }
    assert Lower(s) == s;
    StripNoop(s);
  }

  lemma {:induction false} StripNoop(s: string)
    requires forall c :: c in s ==> c != ' ' && c != '*'
    ensures Strip(s) == s
    decreases |s|
  {
    if |s| > 0 {
      assert s[0] in s;
      assert forall c :: c in s[1..] ==> c in s;
      StripNoop(s[1..]);
      assert s == [s[0]] + s[1..];
    }
  }

  /** The key's `/`-segments are sorted and are exactly the input's folded,
      stripped segments in some order. */
  lemma CleanSegments(txt: string)
    ensures Sorted(Split(Clean(txt), "/"))
    ensures multiset(Split(Clean(txt), "/")) == multiset(Segments(txt))
  {
    var segs := Sort(Segments(txt));
    forall k | 0 <= k < |segs|
      ensures '/' !in segs[k]
    {
      assert segs[k] in multiset(Segments(txt));
      var m :| 0 <= m < |Segments(txt)| && Segments(txt)[m] == segs[k];
      SplitPiecesAvoidSep(Strip(Lower(txt)), "/", m);
    }
    assert |segs| == |multiset(segs)| == |multiset(Segments(txt))| == |Segments(txt)| >= 1;
    JoinSplit(segs, "/");
  }

  /** Cleaning a key again gives the same key. */
  lemma CleanIdempotent(txt: string)
    ensures Clean(Clean(txt)) == Clean(txt)
  {
    var key := Clean(txt);
    StripLowerOfKey(key);
    CleanSegments(txt);
    assert Segments(key) == Split(key, "/");
    SortOfSorted(Segments(key));
    SplitJoin(key, "/");
  }

  /** Two raw names get the same key exactly when their folded, stripped
      segments are the same up to order: segment order, case, spaces and
      asterisks do not matter, and nothing else is forgotten. */
  lemma CleanEqualIff(a: string, b: string)
    ensures Clean(a) == Clean(b) <==> multiset(Segments(a)) == multiset(Segments(b))
  {
    CleanSegments(a);
    CleanSegments(b);
    if multiset(Segments(a)) == multiset(Segments(b)) {
      SortedUnique(Sort(Segments(a)), Sort(Segments(b)));
    }
  }

  /** One player's name: no separator, and nothing `clean` removes. */
  predicate NamePart(s: string) {
    forall c :: c in s ==> c != ' ' && c != '*' && c != '/'
  }

  lemma LowerAppend(a: string, b: string)
    ensures Lower(a + b) == Lower(a) + Lower(b)
  {
    assert |Lower(a + b)| == |Lower(a) + Lower(b)|;
    forall i | 0 <= i < |a + b|
      ensures Lower(a + b)[i] == (Lower(a) + Lower(b))[i]
    {
      if i >= |a| {
        assert (a + b)[i] == b[i - |a|];
      }
    }
  }

  /** Case folding keeps a player's name a player's name. */
  lemma LowerNamePart(s: string)
    requires NamePart(s)
    ensures NamePart(Lower(s))
  {
    forall c | c in Lower(s)
      ensures c != ' ' && c != '*' && c != '/'
    {
      var i :| 0 <= i < |s| && Lower(s)[i] == c;
      assert s[i] in s;
    }
  }

  /** The segments of two names written `x / y`, in any case. */
  lemma SegmentsSpaced(x: string, y: string)
    requires NamePart(x) && NamePart(y)
    ensures Segments(x + " / " + y) == [Lower(x), Lower(y)]
  {
    var lx, ly := Lower(x), Lower(y);
    LowerNamePart(x);
    LowerNamePart(y);
    assert x + " / " + y == x + (" / " + y);
    LowerAppend(x, " / " + y);
    LowerAppend(" / ", y);
    assert Lower(" / ") == " / ";
    assert Lower(x + " / " + y) == lx + " / " + ly;
    StripAroundSlash(lx, ly);
    TwoPartsSplit(lx, ly);
  }

  /** The segments of two names written `y/x`, in any case. */
  lemma SegmentsPlain(y: string, x: string)
    requires NamePart(x) && NamePart(y)
    ensures Segments(y + "/" + x) == [Lower(y), Lower(x)]
  {
    var lx, ly := Lower(x), Lower(y);
    LowerNamePart(x);
    LowerNamePart(y);
    assert y + "/" + x == y + ("/" + x);
    LowerAppend(y, "/" + x);
    LowerAppend("/", x);
    assert Lower("/") == "/";
    assert Lower(y + "/" + x) == ly + "/" + lx;
    StripNoop(ly + "/" + lx);
    TwoPartsSplit(ly, lx);
  }

  lemma TwoPartsSplit(a: string, b: string)
    requires NamePart(a) && NamePart(b)
    ensures Split(a + "/" + b, "/") == [a, b]
  {
    JoinCons(a, [b], "/");
    assert [a] + [b] == [a, b];
    JoinSplit([a, b], "/");
  }

  /** Spaces around a `/` between two clean names go. */
  lemma StripAroundSlash(x: string, y: string)
    requires forall c :: c in x ==> c != ' ' && c != '*'
    requires forall c :: c in y ==> c != ' ' && c != '*'
    ensures Strip(x + " / " + y) == x + "/" + y
  {
    assert x + " / " + y == x + (" " + ("/" + (" " + y)));
    StripAppend(x, " " + ("/" + (" " + y)));
    StripAppend(" ", "/" + (" " + y));
    StripAppend("/", " " + y);
    StripAppend(" ", y);
    StripNoop(x);
    StripNoop(y);
    assert Strip(" ") == "";
    assert Strip("/") == "/";
  }

  /** Stripping works piece by piece. */
  lemma {:induction false} StripAppend(a: string, b: string)
    ensures Strip(a + b) == Strip(a) + Strip(b)
    decreases |a|
  {
    if |a| > 0 {
      assert (a + b)[0] == a[0];
      assert (a + b)[1..] == a[1..] + b;
      StripAppend(a[1..], b);
    } else {
      assert a + b == b;
    }
  }

  /** Spacing, case and the order of the two players do not change a
      pair's key: `x / y` and `y/x` get the same key. */
  lemma CleanSpacingAndOrder(x: string, y: string)
    requires NamePart(x) && NamePart(y)
    ensures Clean(x + " / " + y) == Clean(y + "/" + x)
  {
    SegmentsSpaced(x, y);
    SegmentsPlain(y, x);
    assert multiset([Lower(x), Lower(y)]) == multiset([Lower(y), Lower(x)]);
    CleanEqualIff(x + " / " + y, y + "/" + x);
  }
}
