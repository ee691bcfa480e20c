/**
  The rewrite `conversionFile` performs on one file's content:
  `content.replaceAll(matcher, sub => sub.replaceAll(from, to))`.
  Inside each match only, every literal occurrence of `from` becomes `to`;
  everything between matches is copied.
 */
module Substitution {
  import opened Results
  import opened Matching

  /** `from` occurs in `s` at index `i`. */
  predicate At(s: string, from: string, i: nat)
  {
    i + |from| <= |s| && s[i..i + |from|] == from
  }

  /**
    `String.prototype.replaceAll(from, to)` with a literal `to`, from index `i` on:
    occurrences are taken left to right without overlap; an empty `from` matches
    before every character and at the end.
   */
  function ReplaceAllFrom(s: string, from: string, to: string, i: nat): string
    requires i <= |s|
    decreases |s| - i
  {
    if |from| == 0 then
      if i == |s| then to else to + [s[i]] + ReplaceAllFrom(s, from, to, i + 1)
    else if At(s, from, i) then to + ReplaceAllFrom(s, from, to, i + |from|)
    else if i < |s| then [s[i]] + ReplaceAllFrom(s, from, to, i + 1)
    else []
  }

  function ReplaceAll(s: string, from: string, to: string): string
  {
    ReplaceAllFrom(s, from, to, 0)
  }

  /**
    The replacement JavaScript actually inserts for a string `to` (GetSubstitution):
    `$$` is `$`, `$&` the occurrence, `` $` `` the text before it, `$'` the text after it;
    any other `$` is kept as it is.
   */
  function GetSubstitution(template: string, before: string, matched: string, after: string): string
    decreases |template|
  {
    if template == [] then []
    else if template[0] == '$' && |template| >= 2 && template[1] == '$' then
      "$" + GetSubstitution(template[2..], before, matched, after)
    else if template[0] == '$' && |template| >= 2 && template[1] == '&' then
      matched + GetSubstitution(template[2..], before, matched, after)
    else if template[0] == '$' && |template| >= 2 && template[1] == '`' then
      before + GetSubstitution(template[2..], before, matched, after)
    else if template[0] == '$' && |template| >= 2 && template[1] == '\'' then
      after + GetSubstitution(template[2..], before, matched, after)
    else
      [template[0]] + GetSubstitution(template[1..], before, matched, after)
  }

  /** `sub.replaceAll(from, to)` exactly as the engine evaluates it, `$` patterns in `to` included. */
  function ReplaceAllJsFrom(s: string, from: string, to: string, i: nat): string
    requires i <= |s|
    decreases |s| - i
  {
    if |from| == 0 then
      var r := GetSubstitution(to, s[..i], "", s[i..]);
      if i == |s| then r else r + [s[i]] + ReplaceAllJsFrom(s, from, to, i + 1)
    else if At(s, from, i) then
      GetSubstitution(to, s[..i], from, s[i + |from|..]) + ReplaceAllJsFrom(s, from, to, i + |from|)
    else if i < |s| then [s[i]] + ReplaceAllJsFrom(s, from, to, i + 1)
    else []
  }

  function ReplaceAllJs(s: string, from: string, to: string): string
  {
    ReplaceAllJsFrom(s, from, to, 0)
  }

  /** The rewritten content: characters between matches are copied, each match has `from` replaced by `to`. */
  function Render(ps: seq<Piece>, from: string, to: string): string
  {
    if ps == [] then []
    else
      (match ps[0]
       case Plain(c) => [c]
       case Hit(t) => ReplaceAll(t, from, to))
      + Render(ps[1..], from, to)
  }

  /** One conversion pass of matcher `m` over `content`. */
  function Convert(m: Matcher, content: string, from: string, to: string): string
  {
    Render(Segments(m, content), from, to)
  }

  /** `Render` with the replacement JavaScript performs, `$` patterns in `to` included. */
  function RenderJs(ps: seq<Piece>, from: string, to: string): string
  {
    if ps == [] then []
    else
      (match ps[0]
       case Plain(c) => [c]
       case Hit(t) => ReplaceAllJs(t, from, to))
      + RenderJs(ps[1..], from, to)
  }

  /** The conversion pass exactly as written. */
  function ConvertJs(m: Matcher, content: string, from: string, to: string): string
  {
    RenderJs(Segments(m, content), from, to)
  }

  /** How a pass inserts `to`: with JavaScript's `$` patterns expanded, as the program does, or literally. */
  datatype Insertion = Expanded | Literal

  /** One conversion pass of matcher `m` over `content`, inserting `to` as `ins` says. */
  function Pass(ins: Insertion, m: Matcher, content: string, from: string, to: string): string
  {
    match ins
    case Expanded => ConvertJs(m, content, from, to)
    case Literal => Convert(m, content, from, to)
  }

  /** Replacing a string by itself changes nothing, for every `from`, the empty one included. */
  lemma {:induction false} ReplaceAllIdentity(s: string, from: string, i: nat)
    requires i <= |s|
    ensures ReplaceAllFrom(s, from, from, i) == s[i..]
    decreases |s| - i
  {
    if |from| == 0 {
      if i < |s| {
        ReplaceAllIdentity(s, from, i + 1);
        assert s[i..] == [s[i]] + s[i + 1..];
      }
    } else if At(s, from, i) {
      ReplaceAllIdentity(s, from, i + |from|);
      assert s[i..] == s[i..i + |from|] + s[i + |from|..];
    } else if i < |s| {
      ReplaceAllIdentity(s, from, i + 1);
      assert s[i..] == [s[i]] + s[i + 1..];
    }
  }

  /** Where a non-empty `from` does not occur, nothing is replaced. */
  lemma {:induction false} ReplaceAllAbsent(s: string, from: string, to: string, i: nat)
    requires i <= |s| && |from| > 0
    requires forall j :: i <= j <= |s| ==> !At(s, from, j)
    ensures ReplaceAllFrom(s, from, to, i) == s[i..]
    decreases |s| - i
  {
    if i < |s| {
      ReplaceAllAbsent(s, from, to, i + 1);
      assert s[i..] == [s[i]] + s[i + 1..];
    }
  }

  /** A replacement string without `$` is inserted as it is. */
  lemma {:induction false} NoDollarIsLiteral(template: string, before: string, matched: string, after: string)
    requires '$' !in template
    ensures GetSubstitution(template, before, matched, after) == template
    decreases |template|
  {
    if template != [] {
      assert template[0] != '$';
      assert '$' !in template[1..];
      NoDollarIsLiteral(template[1..], before, matched, after);
    }
  }

  /** When `to` holds no `$`, JavaScript's replacement and the literal one agree. */
  lemma {:induction false} JsAgreesWithoutDollar(s: string, from: string, to: string, i: nat)
    requires i <= |s| && '$' !in to
    ensures ReplaceAllJsFrom(s, from, to, i) == ReplaceAllFrom(s, from, to, i)
    decreases |s| - i
  {
    if |from| == 0 {
      NoDollarIsLiteral(to, s[..i], "", s[i..]);
      if i < |s| {
        JsAgreesWithoutDollar(s, from, to, i + 1);
        assert ReplaceAllJsFrom(s, from, to, i)
            == GetSubstitution(to, s[..i], "", s[i..]) + [s[i]] + ReplaceAllJsFrom(s, from, to, i + 1);
      } else {
        assert ReplaceAllJsFrom(s, from, to, i) == GetSubstitution(to, s[..i], "", s[i..]);
      }
    } else if At(s, from, i) {
      NoDollarIsLiteral(to, s[..i], from, s[i + |from|..]);
      JsAgreesWithoutDollar(s, from, to, i + |from|);
      assert ReplaceAllJsFrom(s, from, to, i)
          == GetSubstitution(to, s[..i], from, s[i + |from|..]) + ReplaceAllJsFrom(s, from, to, i + |from|);
    } else if i < |s| {
      JsAgreesWithoutDollar(s, from, to, i + 1);
    }
  }

  /**
    With `from == to == "$$"` JavaScript turns `"$$"` into `"$"`: on a match that holds `$`
    (which only a regular-expression key such as `\$\$` produces) the identity law fails as written.
   */
  lemma DollarBreaksIdentity()
    ensures ReplaceAllJs("$$", "$$", "$$") == "$"
    ensures ReplaceAll("$$", "$$", "$$") == "$$"
  {
    var s := "$$";
    assert At(s, s, 0);
    assert GetSubstitution(s, "", s, "") == "$";
    assert ReplaceAllJsFrom(s, s, s, 2) == [];
    ReplaceAllIdentity(s, s, 0);
  }

  lemma {:induction false} RenderJsAgrees(ps: seq<Piece>, from: string, to: string)
    requires '$' !in to
    ensures RenderJs(ps, from, to) == Render(ps, from, to)
    decreases |ps|
  {
    if ps != [] {
      if ps[0].Hit? {
        JsAgreesWithoutDollar(ps[0].text, from, to, 0);
      }
      RenderJsAgrees(ps[1..], from, to);
    }
  }

  /** A replacement string without `$` makes the pass as written equal to the literal one. */
  lemma ConvertJsAgreesWithoutDollar(m: Matcher, content: string, from: string, to: string)
    requires '$' !in to
    ensures ConvertJs(m, content, from, to) == Convert(m, content, from, to)
  {
    RenderJsAgrees(Segments(m, content), from, to);
  }

  /** A replacement string without `$` makes both insertions the literal pass. */
  lemma PassWithoutDollar(ins: Insertion, m: Matcher, content: string, from: string, to: string)
    requires '$' !in to
    ensures Pass(ins, m, content, from, to) == Convert(m, content, from, to)
  {
    if ins.Expanded? {
      ConvertJsAgreesWithoutDollar(m, content, from, to);
    }
  }

  lemma {:induction false} RenderPlainText(ps: seq<Piece>, from: string, to: string)
    requires forall i :: 0 <= i < |ps| ==> ps[i].Plain?
    ensures Render(ps, from, to) == Text(ps)
    decreases |ps|
  {
    if ps != [] {
      RenderPlainText(ps[1..], from, to);
    }
  }

  lemma {:induction false} RenderUnchangedHits(ps: seq<Piece>, from: string, to: string)
    requires forall i :: 0 <= i < |ps| && ps[i].Hit? ==> ReplaceAll(ps[i].text, from, to) == ps[i].text
    ensures Render(ps, from, to) == Text(ps)
    decreases |ps|
  {
    if ps != [] {
      RenderUnchangedHits(ps[1..], from, to);
    }
  }

  /** Identity law: a pass with `from == to` leaves the content as it was. */
  lemma ConvertIdentity(m: Matcher, content: string, from: string)
    ensures Convert(m, content, from, from) == content
  {
    var ps := Segments(m, content);
    SegmentsText(m, content);
    forall i | 0 <= i < |ps| && ps[i].Hit?
      ensures ReplaceAll(ps[i].text, from, from) == ps[i].text
    {
      ReplaceAllIdentity(ps[i].text, from, 0);
    }
    RenderUnchangedHits(ps, from, from);
  }

  /** Text outside every match is untouched: where no key occurs, the pass changes nothing, whatever `from` and `to`. */
  lemma ConvertWithoutMatches(m: Matcher, content: string, from: string, to: string)
    requires !Occurs(m, content)
    ensures Convert(m, content, from, to) == content
  {
    NoOccurrenceNoHit(m, content);
    SegmentsText(m, content);
    RenderPlainText(Segments(m, content), from, to);
  }

  /** Only `from` inside a match is rewritten: if no key contains `from`, the pass changes nothing. */
  lemma ConvertKeysWithoutFrom(m: Matcher, content: string, from: string, to: string)
    requires |from| > 0
    requires forall k, j :: 0 <= k < |m| && 0 <= j <= |m[k]| ==> !At(m[k], from, j)
    ensures Convert(m, content, from, to) == content
  {
    var ps := Segments(m, content);
    SegmentsText(m, content);
    SegmentsHits(m, content);
    forall i | 0 <= i < |ps| && ps[i].Hit?
      ensures ReplaceAll(ps[i].text, from, to) == ps[i].text
    {
      var k :| 0 <= k < |m| && m[k] == ps[i].text;
      ReplaceAllAbsent(ps[i].text, from, to, 0);
    }
    RenderUnchangedHits(ps, from, to);
  }

  /** No key of the matcher holds `$`, so no match does either. */
  predicate DollarFree(m: Matcher)
  {
    forall k :: k in m ==> '$' !in k
  }

  /** Where a non-empty `from` does not occur, JavaScript's `replaceAll` replaces nothing either. */
  lemma {:induction false} ReplaceAllJsAbsent(s: string, from: string, to: string, i: nat)
    requires i <= |s| && |from| > 0
    requires forall j :: i <= j <= |s| ==> !At(s, from, j)
    ensures ReplaceAllJsFrom(s, from, to, i) == s[i..]
    decreases |s| - i
  {
    if i < |s| {
      ReplaceAllJsAbsent(s, from, to, i + 1);
      assert s[i..] == [s[i]] + s[i + 1..];
    }
  }

  /** Replacing `from` by itself as JavaScript does changes nothing when `from` or the string holds no `$`. */
  lemma ReplaceAllJsIdentity(s: string, from: string)
    requires '$' !in from || '$' !in s
    ensures ReplaceAllJs(s, from, from) == s
  {
    if '$' !in from {
      JsAgreesWithoutDollar(s, from, from, 0);
      ReplaceAllIdentity(s, from, 0);
    } else {
      var d :| 0 <= d < |from| && from[d] == '$';
      forall j | 0 <= j <= |s| ensures !At(s, from, j) {
        if j + |from| <= |s| {
          assert s[j..j + |from|][d] == s[j + d];
          assert s[j + d] in s;
        }
      }
      ReplaceAllJsAbsent(s, from, from, 0);
    }
  }

  lemma {:induction false} RenderJsUnchangedHits(ps: seq<Piece>, from: string, to: string)
    requires forall i :: 0 <= i < |ps| && ps[i].Hit? ==> ReplaceAllJs(ps[i].text, from, to) == ps[i].text
    ensures RenderJs(ps, from, to) == Text(ps)
    decreases |ps|
  {
    if ps != [] {
      RenderJsUnchangedHits(ps[1..], from, to);
    }
  }

  /**
    Identity law for the pass as written: with `from == to` the content is unchanged whenever `from`
    holds no `$` or no key does; a match is one of the keys, so a `from` with `$` never occurs in it.
   */
  lemma ConvertJsIdentity(m: Matcher, content: string, from: string)
    requires '$' !in from || DollarFree(m)
    ensures ConvertJs(m, content, from, from) == content
  {
    var ps := Segments(m, content);
    SegmentsText(m, content);
    SegmentsHits(m, content);
    forall i | 0 <= i < |ps| && ps[i].Hit?
      ensures ReplaceAllJs(ps[i].text, from, from) == ps[i].text
    {
      ReplaceAllJsIdentity(ps[i].text, from);
    }
    RenderJsUnchangedHits(ps, from, from);
  }

  /**
    Identity law for a pass in either mode: with `from == to` the content is unchanged, always with
    literal insertion, and as written when `from` or every key is free of `$`.
   */
  lemma PassIdentity(ins: Insertion, m: Matcher, content: string, from: string)
    requires ins.Literal? || '$' !in from || DollarFree(m)
    ensures Pass(ins, m, content, from, from) == content
  {
    if ins.Expanded? {
      ConvertJsIdentity(m, content, from);
    } else {
      ConvertIdentity(m, content, from);
    }
  }
}
