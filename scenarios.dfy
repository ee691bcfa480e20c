/**
  Worked examples of the conversion, each checked against the definitions.
 */
module Scenarios {
  import opened Results
  import opened Matching
  import opened Substitution
  import opened Keys
  import opened Engine

  /** A position where the matcher finds nothing copies one character. */
  lemma ScanPlain(m: Matcher, s: string)
    requires |s| > 0 && FirstMatch(m, s).None?
    ensures Segments(m, s) == [Plain(s[0])] + Segments(m, s[1..])
  {
  }

  /** A non-empty match of the first key is cut off whole. */
  lemma ScanHit(m: Matcher, s: string)
    requires FirstMatch(m, s) == Some(0) && |m[0]| > 0
    ensures Segments(m, s) == [Hit(m[0])] + Segments(m, s[|m[0]|..])
  {
  }

  /** A single key whose first character differs from the input's does not match there. */
  lemma Miss(k: string, s: string)
    requires |k| > 0 && |s| > 0 && s[0] != k[0]
    ensures FirstMatch([k], s).None?
  {
    if |k| <= |s| {
      assert s[..|k|][0] == s[0];
    }
    assert [k][1..] == [];
  }

  /** A single non-empty key finds nothing in the empty input. */
  lemma ScanEmpty(k: string)
    requires |k| > 0
    ensures Segments([k], "") == []
  {
    assert [k][1..] == [];
  }

  lemma FooBarTail()
    ensures Segments(["foo_bar"], "foo_bar_y") == [Hit("foo_bar"), Plain('_'), Plain('y')]
  {
    var k := "foo_bar";
    var m: Matcher := [k];
    ScanEmpty(k);
    var s1 := "y";
    Miss(k, s1);
    ScanPlain(m, s1);
    assert s1[1..] == "";
    var s2 := "_y";
    Miss(k, s2);
    ScanPlain(m, s2);
    assert s2[1..] == s1;
    var s3 := "foo_bar_y";
    assert s3[..7] == k;
    assert FirstMatch(m, s3) == Some(0);
    ScanHit(m, s3);
    assert s3[7..] == s2;
  }

  lemma FooBarMiddle()
    ensures Segments(["foo_bar"], "_foo_bar_y") == [Plain('_'), Hit("foo_bar"), Plain('_'), Plain('y')]
  {
    var k := "foo_bar";
    var m: Matcher := [k];
    var s0 := "foo_bar_y";
    FooBarTail();
    assert Segments(m, s0) == [Hit(k), Plain('_'), Plain('y')];
    var s1 := "_foo_bar_y";
    Miss(k, s1);
    ScanPlain(m, s1);
    assert s1[1..] == s0;
  }

  /** The scan of `x_foo_bar_y` for the key `foo_bar`. */
  lemma FooBarSegments()
    ensures Segments(["foo_bar"], "x_foo_bar_y") == [Plain('x'), Plain('_'), Hit("foo_bar"), Plain('_'), Plain('y')]
  {
    var k := "foo_bar";
    var m: Matcher := [k];
    var p1 := [Plain('_'), Hit(k), Plain('_'), Plain('y')];
    FooBarMiddle();
    var s2 := "x_foo_bar_y";
    Miss(k, s2);
    ScanPlain(m, s2);
    assert s2[1..] == "_foo_bar_y";
    assert Segments(m, s2) == [Plain('x')] + p1;
  }

  /** Inside the match, `_` becomes `-`. */
  lemma FooBarReplaced()
    ensures ReplaceAll("foo_bar", "_", "-") == "foo-bar"
  {
    var s := "foo_bar";
    assert ReplaceAllFrom(s, "_", "-", 7) == "";
    assert s[6..7][0] == 'r';
    assert ReplaceAllFrom(s, "_", "-", 6) == "r";
    assert s[5..6][0] == 'a';
    assert ReplaceAllFrom(s, "_", "-", 5) == "ar";
    assert s[4..5][0] == 'b';
    assert ReplaceAllFrom(s, "_", "-", 4) == "bar";
    assert At(s, "_", 3);
    assert ReplaceAllFrom(s, "_", "-", 3) == "-bar";
    assert s[2..3][0] == 'o';
    assert ReplaceAllFrom(s, "_", "-", 2) == "o-bar";
    assert s[1..2][0] == 'o';
    assert ReplaceAllFrom(s, "_", "-", 1) == "oo-bar";
    assert s[0..1][0] == 'f';
  }

  lemma FooBarRenderedTail()
    ensures Render([Hit("foo_bar"), Plain('_'), Plain('y')], "_", "-") == "foo-bar_y"
  {
    FooBarReplaced();
    var ps := [Hit("foo_bar"), Plain('_'), Plain('y')];
    assert ps[2..][1..] == [];
    assert Render(ps[2..], "_", "-") == "y";
    assert ps[1..][1..] == ps[2..];
    assert Render(ps[1..], "_", "-") == "_y";
  }

  /** Rendering the pieces: characters between matches are copied. */
  lemma FooBarRendered()
    ensures Render([Plain('x'), Plain('_'), Hit("foo_bar"), Plain('_'), Plain('y')], "_", "-") == "x_foo-bar_y"
  {
    FooBarRenderedTail();
    var ps := [Plain('x'), Plain('_'), Hit("foo_bar"), Plain('_'), Plain('y')];
    assert ps[2..] == [Hit("foo_bar"), Plain('_'), Plain('y')];
    assert ps[1..][1..] == ps[2..];
    assert Render(ps[1..], "_", "-") == "_foo-bar_y";
  }

  /** Only the `_` inside the match `foo_bar` is rewritten; the two outside it stay. */
  lemma MatchScopedSubstitution()
    ensures Convert(["foo_bar"], "x_foo_bar_y", "_", "-") == "x_foo-bar_y"
  {
    FooBarSegments();
    FooBarRendered();
  }

  lemma BarPlain()
    ensures Segments(["foo"], "bar") == [Plain('b'), Plain('a'), Plain('r')]
  {
    var k := "foo";
    var m: Matcher := [k];
    ScanEmpty(k);
    var s1 := "r";
    Miss(k, s1);
    ScanPlain(m, s1);
    assert s1[1..] == "";
    var s2 := "ar";
    Miss(k, s2);
    ScanPlain(m, s2);
    assert s2[1..] == s1;
    var s3 := "bar";
    Miss(k, s3);
    ScanPlain(m, s3);
    assert s3[1..] == s2;
  }

  /** Inserted literally, each `o` of `foo` becomes `to`. */
  lemma FooReplaced(to: string)
    ensures ReplaceAll("foo", "o", to) == "f" + to + to
  {
    var s := "foo";
    assert ReplaceAllFrom(s, "o", to, 3) == "";
    assert At(s, "o", 2);
    assert ReplaceAllFrom(s, "o", to, 2) == to;
    assert At(s, "o", 1);
    assert ReplaceAllFrom(s, "o", to, 1) == to + to;
    assert s[0..1][0] == 'f';
  }

  lemma FooBarScan()
    ensures Segments(["foo"], "foobar") == [Hit("foo"), Plain('b'), Plain('a'), Plain('r')]
  {
    var m: Matcher := ["foo"];
    var s := "foobar";
    BarPlain();
    assert s[..3] == "foo";
    assert FirstMatch(m, s) == Some(0);
    ScanHit(m, s);
    assert s[3..] == "bar";
  }

  lemma FooBarRender()
    ensures Render([Hit("foo"), Plain('b'), Plain('a'), Plain('r')], "o", "0") == "f00bar"
  {
    FooReplaced("0");
    var ps := [Hit("foo"), Plain('b'), Plain('a'), Plain('r')];
    assert ps[3..][1..] == [];
    assert Render(ps[3..], "o", "0") == "r";
    assert ps[2..][1..] == ps[3..];
    assert Render(ps[2..], "o", "0") == "ar";
    assert ps[1..][1..] == ps[2..];
    assert Render(ps[1..], "o", "0") == "bar";
  }

  /** `foobar` with key `foo` and `o` to `0` becomes `f00bar`. */
  lemma FooBar()
    ensures Convert(["foo"], "foobar", "o", "0") == "f00bar"
  {
    FooBarScan();
    FooBarRender();
  }

  /** JavaScript reads each inserted `$$` as `$`: replacing `o` by `$$` in `foo` gives `f$$`. */
  lemma FooDollarExpanded()
    ensures ReplaceAllJs("foo", "o", "$$") == "f$$"
  {
    var s := "foo";
    assert ReplaceAllJsFrom(s, "o", "$$", 3) == "";
    assert At(s, "o", 2);
    assert GetSubstitution("$$", s[..2], "o", s[3..]) == "$";
    assert ReplaceAllJsFrom(s, "o", "$$", 2) == "$";
    assert At(s, "o", 1);
    assert GetSubstitution("$$", s[..1], "o", s[2..]) == "$";
    assert ReplaceAllJsFrom(s, "o", "$$", 1) == "$$";
    assert s[0..1][0] == 'f';
  }

  lemma FooBarRenderJsDollar()
    ensures RenderJs([Hit("foo"), Plain('b'), Plain('a'), Plain('r')], "o", "$$") == "f$$bar"
  {
    FooDollarExpanded();
    var ps := [Hit("foo"), Plain('b'), Plain('a'), Plain('r')];
    assert ps[3..][1..] == [];
    assert RenderJs(ps[3..], "o", "$$") == "r";
    assert ps[2..][1..] == ps[3..];
    assert RenderJs(ps[2..], "o", "$$") == "ar";
    assert ps[1..][1..] == ps[2..];
    assert RenderJs(ps[1..], "o", "$$") == "bar";
  }

  lemma FooBarRenderDollar()
    ensures Render([Hit("foo"), Plain('b'), Plain('a'), Plain('r')], "o", "$$") == "f$$$$bar"
  {
    FooReplaced("$$");
    var ps := [Hit("foo"), Plain('b'), Plain('a'), Plain('r')];
    assert ps[3..][1..] == [];
    assert Render(ps[3..], "o", "$$") == "r";
    assert ps[2..][1..] == ps[3..];
    assert Render(ps[2..], "o", "$$") == "ar";
    assert ps[1..][1..] == ps[2..];
    assert Render(ps[1..], "o", "$$") == "bar";
  }

  /** The one-key run as written: key `foo`, `o` to `$$` turns `foobar` into `f$$bar`. */
  lemma DollarExpandedRun()
    ensures ConvertAll(Expanded, [["foo"]], "foobar", "o", "$$") == "f$$bar"
  {
    var ms: seq<Matcher> := [["foo"]];
    assert ms[..0] == [];
    FooBarScan();
    FooBarRenderJsDollar();
    assert ConvertJs(["foo"], "foobar", "o", "$$") == "f$$bar";
  }

  /** The same run with `to` inserted literally: every `o` in the match becomes `$$`, giving `f$$$$bar`. */
  lemma DollarInsertedLiterally()
    ensures ConvertAll(Literal, [["foo"]], "foobar", "o", "$$") == "f$$$$bar"
  {
    var ms: seq<Matcher> := [["foo"]];
    assert ms[..0] == [];
    FooBarScan();
    FooBarRenderDollar();
    assert Convert(["foo"], "foobar", "o", "$$") == "f$$$$bar";
  }

  /** Keys `ab` and `abc`: sorting puts `abc` first, so it is what matches at both positions of `abcabc`. */
  lemma LongestMatchPrecedence()
    ensures SortByLength(["ab", "abc"]) == ["abc", "ab"]
    ensures Segments(["abc", "ab"], "abcabc") == [Hit("abc"), Hit("abc")]
  {
    assert ["ab", "abc"][1..] == ["abc"];
    assert SortByLength(["abc"]) == ["abc"];
    var m: Matcher := ["abc", "ab"];
    assert FirstMatch(m, "abcabc") == Some(0);
    assert "abcabc"[3..] == "abc";
    assert FirstMatch(m, "abc") == Some(0);
    assert "abc"[3..] == "";
    assert FirstMatch(m, "").None?;
  }

  /** A `from` that straddles the end of a match is not rewritten. */
  lemma FromAcrossMatchBoundary()
    ensures Convert(["ab"], "abc", "bc", "X") == "abc"
  {
    var m: Matcher := ["ab"];
    assert FirstMatch(m, "abc") == Some(0);
    assert "abc"[2..] == "c";
    assert FirstMatch(m, "c").None?;
    assert "c"[1..] == "";
    assert FirstMatch(m, "").None?;
    assert Segments(m, "abc") == [Hit("ab"), Plain('c')];
    assert !At("ab", "bc", 0) && !At("ab", "bc", 1);
    assert ReplaceAll("ab", "bc", "X") == "ab";
  }

  lemma EmptyKeySegments()
    ensures Segments([""], "ab") == [Hit(""), Plain('a'), Hit(""), Plain('b'), Hit("")]
  {
    var m: Matcher := [""];
    assert FirstMatch(m, "") == Some(0);
    assert Segments(m, "") == [Hit("")];
    assert "b"[1..] == "";
    assert FirstMatch(m, "b") == Some(0);
    assert Segments(m, "b") == [Hit(""), Plain('b'), Hit("")];
    assert "ab"[1..] == "b";
    assert FirstMatch(m, "ab") == Some(0);
  }

  lemma EmptyKeyRendered()
    ensures Render([Hit(""), Plain('a'), Hit(""), Plain('b'), Hit("")], "", "-") == "-a-b-"
  {
    assert ReplaceAllFrom("", "", "-", 0) == "-";
    var ps := [Hit(""), Plain('a'), Hit(""), Plain('b'), Hit("")];
    assert ps[4..][1..] == [];
    assert Render(ps[4..], "", "-") == "-";
    assert ps[3..][1..] == ps[4..];
    assert Render(ps[3..], "", "-") == "b-";
    assert ps[2..][1..] == ps[3..];
    assert Render(ps[2..], "", "-") == "-b-";
    assert ps[1..][1..] == ps[2..];
    assert Render(ps[1..], "", "-") == "a-b-";
  }

  /** An empty key matches before every character and at the end, so an empty `from` inserts `to` there. */
  lemma EmptyKey()
    ensures Convert([""], "ab", "", "-") == "-a-b-"
  {
    EmptyKeySegments();
    EmptyKeyRendered();
  }

  /** The first batch: `xa` matches whole and its `a` is doubled. */
  lemma FirstBatch()
    ensures Convert(["xa"], "xa", "a", "aa") == "xaa"
  {
    var m1: Matcher := ["xa"];
    assert FirstMatch(m1, "xa") == Some(0);
    assert "xa"[2..] == "";
    assert FirstMatch(m1, "").None?;
    assert Segments(m1, "xa") == [Hit("xa")];
    var s := "xa";
    assert s[1..2] == "a" && s[0..1] == "x";
    assert At(s, "a", 1) && !At(s, "a", 0);
    assert ReplaceAllFrom(s, "a", "aa", 2) == [];
    assert ReplaceAllFrom(s, "a", "aa", 1) == "aa";
    assert ReplaceAll(s, "a", "aa") == "xaa";
  }

  lemma SecondBatchSegments()
    ensures Segments(["aa"], "xaa") == [Plain('x'), Hit("aa")]
  {
    var k := "aa";
    var m: Matcher := [k];
    ScanEmpty(k);
    var s1 := "aa";
    assert s1[..2] == k;
    assert FirstMatch(m, s1) == Some(0);
    ScanHit(m, s1);
    assert s1[2..] == "";
    var s2 := "xaa";
    Miss(k, s2);
    ScanPlain(m, s2);
    assert s2[1..] == s1;
  }

  /** The second batch on the first batch's output: `aa` now occurs and is rewritten. */
  lemma SecondBatch()
    ensures Convert(["aa"], "xaa", "a", "aa") == "xaaaa"
  {
    SecondBatchSegments();
    assert At("aa", "a", 0) && At("aa", "a", 1);
    assert ReplaceAllFrom("aa", "a", "aa", 2) == [];
    assert ReplaceAllFrom("aa", "a", "aa", 1) == "aa";
    assert ReplaceAll("aa", "a", "aa") == "aaaa";
    var ps := [Plain('x'), Hit("aa")];
    assert ps[1..][1..] == [];
    assert Render(ps[1..], "a", "aa") == "aaaa";
  }

  /** The second batch on the original content: `aa` does not occur there. */
  lemma SecondBatchAlone()
    ensures Convert(["aa"], "xa", "a", "aa") == "xa"
  {
    var k := "aa";
    var m: Matcher := [k];
    ScanEmpty(k);
    var s1 := "a";
    assert !IsPrefix(k, s1);
    assert FirstMatch(m, s1).None?;
    ScanPlain(m, s1);
    assert s1[1..] == "";
    var s2 := "xa";
    Miss(k, s2);
    ScanPlain(m, s2);
    assert s2[1..] == s1;
    assert Segments(m, s2) == [Plain('x'), Plain('a')];
  }

  /** Batches compose: the second batch matches `aa`, which exists only in the first batch's output. */
  lemma CumulativeBatching()
    ensures ConvertAll(Expanded, [["xa"], ["aa"]], "xa", "a", "aa") == "xaaaa"
    ensures ConvertAll(Literal, [["xa"], ["aa"]], "xa", "a", "aa") == "xaaaa"
    ensures Convert(["aa"], "xa", "a", "aa") == "xa"
  {
    FirstBatch();
    SecondBatch();
    SecondBatchAlone();
    assert [["xa"], ["aa"]][..1] == [["xa"]];
    assert [["xa"]][..0] == [];
    assert ConvertAll(Literal, [["xa"]], "xa", "a", "aa") == "xaa";
    ConvertAllWithoutDollar([["xa"], ["aa"]], "xa", "a", "aa");
  }
}
