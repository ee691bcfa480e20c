/**
  The matcher a key batch becomes, for literal keys: the global regular expression
  `(k0|k1|...)`. Scanning left to right, at the leftmost position where some key
  matches it takes the first key, in batch order, that matches there, and it resumes
  after that match; matches never overlap.
 */
module Matching {
  import opened Results

  /** The alternatives of one matcher, in the order the expression tries them. */
  type Matcher = seq<string>

  predicate IsPrefix(k: string, s: string)
  {
    |k| <= |s| && s[..|k|] == k
  }

  /** The alternative the expression commits to at the start of `s`: the first one in order that matches. */
  function FirstMatch(m: Matcher, s: string): (r: Option<nat>)
    ensures r.Some? ==> r.value < |m| && IsPrefix(m[r.value], s)
    ensures r.Some? ==> forall j :: 0 <= j < r.value ==> !IsPrefix(m[j], s)
    ensures r.None? ==> forall j :: 0 <= j < |m| ==> !IsPrefix(m[j], s)
  {
    if m == [] then None
    else if IsPrefix(m[0], s) then Some(0)
    else match FirstMatch(m[1..], s)
      case None => None
      case Some(i) => Some(i + 1)
  }

  /** A piece of the input as the matcher sees it: a character between matches, or a matched substring. */
  datatype Piece = Plain(c: char) | Hit(text: string)

  function PieceText(p: Piece): string
  {
    match p
    case Plain(c) => [c]
    case Hit(t) => t
  }

  function Text(ps: seq<Piece>): string
  {
    if ps == [] then [] else PieceText(ps[0]) + Text(ps[1..])
  }

  /**
    The global scan: the input cut into matches and the characters between them.
    After an empty match the scan copies one character and moves on (`lastIndex` is advanced
    by one), and an empty key also matches at the very end.
   */
  function Segments(m: Matcher, s: string): seq<Piece>
    decreases |s|
  {
    match FirstMatch(m, s)
    case Some(i) =>
      if |m[i]| > 0 then [Hit(m[i])] + Segments(m, s[|m[i]|..])
      else if s == [] then [Hit(m[i])]
      else [Hit(m[i]), Plain(s[0])] + Segments(m, s[1..])
    case None =>
      if s == [] then [] else [Plain(s[0])] + Segments(m, s[1..])
  }

  lemma TextCons(p: Piece, ps: seq<Piece>)
    ensures Text([p] + ps) == PieceText(p) + Text(ps)
  {
    assert ([p] + ps)[1..] == ps;
  }

  /** The pieces spell the input back: the scan loses, adds and reorders nothing. */
  lemma {:induction false} SegmentsText(m: Matcher, s: string)
    ensures Text(Segments(m, s)) == s
    decreases |s|
  {
    match FirstMatch(m, s)
    case Some(i) =>
      if |m[i]| > 0 {
        var rest := s[|m[i]|..];
        assert Segments(m, s) == [Hit(m[i])] + Segments(m, rest);
        SegmentsText(m, rest);
        TextCons(Hit(m[i]), Segments(m, rest));
        assert s == m[i] + rest;
      } else if s != [] {
        var tail := Segments(m, s[1..]);
        assert Segments(m, s) == [Hit(m[i])] + ([Plain(s[0])] + tail);
        SegmentsText(m, s[1..]);
        TextCons(Plain(s[0]), tail);
        TextCons(Hit(m[i]), [Plain(s[0])] + tail);
        assert s == [s[0]] + s[1..];
      } else {
        assert Segments(m, s) == [Hit(m[i])] + [];
        TextCons(Hit(m[i]), []);
      }
    case None =>
      if s != [] {
        assert Segments(m, s) == [Plain(s[0])] + Segments(m, s[1..]);
        SegmentsText(m, s[1..]);
        TextCons(Plain(s[0]), Segments(m, s[1..]));
        assert s == [s[0]] + s[1..];
      }
  }

  /** Every match the scan reports is one of the matcher's keys. */
  lemma {:induction false} SegmentsHits(m: Matcher, s: string)
    ensures forall i :: 0 <= i < |Segments(m, s)| && Segments(m, s)[i].Hit? ==> Segments(m, s)[i].text in m
    decreases |s|
  {
    var ps := Segments(m, s);
    match FirstMatch(m, s)
    case Some(i) =>
      if |m[i]| > 0 {
        var rest := Segments(m, s[|m[i]|..]);
        SegmentsHits(m, s[|m[i]|..]);
        forall j | 0 <= j < |ps| && ps[j].Hit? ensures ps[j].text in m {
          if j > 0 {
            assert ps[j] == rest[j - 1];
          }
        }
      } else if s != [] {
        var rest := Segments(m, s[1..]);
        SegmentsHits(m, s[1..]);
        forall j | 0 <= j < |ps| && ps[j].Hit? ensures ps[j].text in m {
          if j > 1 {
            assert ps[j] == rest[j - 2];
          }
        }
      }
    case None =>
      if s != [] {
        var rest := Segments(m, s[1..]);
        SegmentsHits(m, s[1..]);
        forall j | 0 <= j < |ps| && ps[j].Hit? ensures ps[j].text in m {
          assert ps[j] == rest[j - 1];
        }
      }
  }

  lemma {:induction false} TextAppend(a: seq<Piece>, b: seq<Piece>)
    ensures Text(a + b) == Text(a) + Text(b)
    decreases |a|
  {
    if a == [] {
      assert a + b == b;
    } else {
      assert (a + b)[1..] == a[1..] + b;
      assert (a + b)[0] == a[0];
      TextAppend(a[1..], b);
    }
  }

  /**
    Piece `p` is what the expression does on the remaining input `t`: a match is the first
    alternative that matches there; a copied character is the first character of `t`, copied
    either just after an empty match or because no alternative matches there.
   */
  predicate PieceAt(m: Matcher, t: string, p: Piece, afterEmpty: bool)
  {
    match p
    case Hit(k) => FirstMatch(m, t).Some? && k == m[FirstMatch(m, t).value]
    case Plain(c) => |t| > 0 && c == t[0] && (afterEmpty || FirstMatch(m, t).None?)
  }

  /** Piece `j` of the scan `ps` of `s` is what the expression does at the offset where the piece starts. */
  predicate ScannedAt(m: Matcher, s: string, ps: seq<Piece>, j: nat)
    requires j < |ps|
  {
    var o := |Text(ps[..j])|;
    o <= |s| && PieceAt(m, s[o..], ps[j], j > 0 && ps[j - 1] == Hit(""))
  }

  /** Where piece `j` of `pre + rest` starts: after the text of `pre` and the pieces of `rest` before it. */
  lemma {:induction false} OffsetShift(pre: seq<Piece>, rest: seq<Piece>, j: nat)
    requires |pre| <= j <= |pre| + |rest|
    ensures |Text((pre + rest)[..j])| == |Text(pre)| + |Text(rest[..j - |pre|])|
  {
    assert (pre + rest)[..j] == pre + rest[..j - |pre|];
    TextAppend(pre, rest[..j - |pre|]);
  }

  /** What holds right after an empty match holds more so when that is known. */
  lemma PieceAtWeaken(m: Matcher, t: string, p: Piece, a: bool, b: bool)
    requires PieceAt(m, t, p, a) && (a ==> b)
    ensures PieceAt(m, t, p, b)
  {
  }

  /** A scan of what is left after the text of `pre` is, shifted by that text, a scan of the whole. */
  lemma {:induction false} ScannedShift(m: Matcher, s: string, pre: seq<Piece>, rest: seq<Piece>, j: nat)
    requires |pre| <= j < |pre| + |rest|
    requires |Text(pre)| <= |s|
    requires ScannedAt(m, s[|Text(pre)|..], rest, j - |pre|)
    ensures ScannedAt(m, s, pre + rest, j)
  {
    var k, j' := |Text(pre)|, j - |pre|;
    var o' := |Text(rest[..j'])|;
    var ps := pre + rest;
    OffsetShift(pre, rest, j);
    assert s[k..][o'..] == s[k + o'..];
    assert ps[j] == rest[j'];
    var before := j' > 0 && rest[j' - 1] == Hit("");
    var after := j > 0 && ps[j - 1] == Hit("");
    if j' > 0 {
      assert ps[j - 1] == rest[j' - 1];
    }
    PieceAtWeaken(m, s[k + o'..], rest[j'], before, after);
    var o := |Text(ps[..j])|;
    assert o == k + o';
  }

  /**
    The scan reports exactly what the global expression does: every match is the first alternative
    matching where it starts, and every copied character is one where no alternative matches
    (or the one stepped over after an empty match). With `SegmentsText`, the pieces are consecutive.
   */
  lemma {:induction false} SegmentsScanned(m: Matcher, s: string)
    ensures forall j :: 0 <= j < |Segments(m, s)| ==> ScannedAt(m, s, Segments(m, s), j)
    decreases |s|
  {
    var ps := Segments(m, s);
    assert s[0..] == s;
    assert Text(ps[..0]) == [];
    match FirstMatch(m, s)
    case Some(i) =>
      if |m[i]| > 0 {
        var pre, rest := [Hit(m[i])], Segments(m, s[|m[i]|..]);
        assert ps == pre + rest;
        TextCons(Hit(m[i]), []);
        SegmentsScanned(m, s[|m[i]|..]);
        forall j | 0 <= j < |ps| ensures ScannedAt(m, s, ps, j) {
          if j > 0 {
            ScannedShift(m, s, pre, rest, j);
          }
        }
      } else if s != [] {
        var pre, rest := [Hit(m[i]), Plain(s[0])], Segments(m, s[1..]);
        assert ps == pre + rest;
        assert m[i] == "";
        TextCons(Plain(s[0]), []);
        TextCons(Hit(m[i]), [Plain(s[0])]);
        assert ps[..1] == [Hit(m[i])];
        TextCons(Hit(m[i]), []);
        SegmentsScanned(m, s[1..]);
        forall j | 0 <= j < |ps| ensures ScannedAt(m, s, ps, j) {
          if j > 1 {
            ScannedShift(m, s, pre, rest, j);
          }
        }
      }
    case None =>
      if s != [] {
        var pre, rest := [Plain(s[0])], Segments(m, s[1..]);
        assert ps == pre + rest;
        TextCons(Plain(s[0]), []);
        SegmentsScanned(m, s[1..]);
        forall j | 0 <= j < |ps| ensures ScannedAt(m, s, ps, j) {
          if j > 0 {
            ScannedShift(m, s, pre, rest, j);
          }
        }
      }
  }

  /** Some key of `m` occurs somewhere in `s`. */
  predicate Occurs(m: Matcher, s: string)
  {
    exists j, i :: 0 <= j < |m| && 0 <= i <= |s| && IsPrefix(m[j], s[i..])
  }

  /** Where no key occurs, the scan finds no match at all. */
  lemma {:induction false} NoOccurrenceNoHit(m: Matcher, s: string)
    requires !Occurs(m, s)
    ensures forall i :: 0 <= i < |Segments(m, s)| ==> Segments(m, s)[i].Plain?
    decreases |s|
  {
    assert s[0..] == s;
    assert FirstMatch(m, s).None?;
    if s != [] {
      forall j, i | 0 <= j < |m| && 0 <= i <= |s[1..]|
        ensures !IsPrefix(m[j], s[1..][i..])
      {
        assert s[1..][i..] == s[i + 1..];
      }
      NoOccurrenceNoHit(m, s[1..]);
      var rest := Segments(m, s[1..]);
      assert Segments(m, s) == [Plain(s[0])] + rest;
      forall j | 0 <= j < |Segments(m, s)| ensures Segments(m, s)[j].Plain? {
        if j > 0 {
          assert Segments(m, s)[j] == rest[j - 1];
        }
      }
    }
  }

  /**
    Longest-match precedence: when the alternatives are ordered by non-increasing length,
    the one the matcher commits to is at least as long as every other key that matches there.
   */
  lemma LongestMatchWins(m: Matcher, s: string)
    requires forall i, j :: 0 <= i < j < |m| ==> |m[i]| >= |m[j]|
    requires FirstMatch(m, s).Some?
    ensures forall j :: 0 <= j < |m| && IsPrefix(m[j], s) ==> |m[j]| <= |m[FirstMatch(m, s).value]|
  {
  }
}
