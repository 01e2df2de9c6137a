/** The regular-expression matcher of grep: `match`, `matchhere` and `matchstar`.

The three matching routines are proved against a meaning of patterns that does not search: a pattern is a list of
pieces with an optional end anchor, and it describes a stretch of text when the stretch can be cut into segments that
fit the pieces one by one.
 */
module Grep {

  /** The characters of a C string before its terminating NUL. */
  type CString = s: string | '\0' !in s

  /** What C reads at offset `i`: a character, or the NUL that ends the string. */
  function At(s: CString, i: nat): char {
    if i < |s| then s[i] else '\0'
  }

  // ---------- the meaning of a pattern ----------

  datatype Piece = One(c: char) | Star(c: char)

  datatype Pattern = Pattern(pieces: seq<Piece>, atEnd: bool)

  /** `.` stands for any character; every other character stands for itself. */
  predicate Fits(c: char, x: char) {
    c == '.' || c == x
  }

  ghost predicate FitsPiece(p: Piece, w: string) {
    match p
    case One(c) => |w| == 1 && Fits(c, w[0])
    case Star(c) => forall i :: 0 <= i < |w| ==> Fits(c, w[i])
  }

  /** The segment between cuts `i` and `i + 1` fits piece `i`. */
  ghost predicate SegmentFits(cuts: seq<nat>, ps: seq<Piece>, w: string, i: nat)
    requires |cuts| == |ps| + 1 && i < |ps|
  {
    cuts[i] <= cuts[i+1] <= |w| && FitsPiece(ps[i], w[cuts[i]..cuts[i+1]])
  }

  /** `cuts` divides `w` into one segment for every piece. */
  ghost predicate IsCutting(cuts: seq<nat>, ps: seq<Piece>, w: string) {
    && |cuts| == |ps| + 1
    && cuts[0] == 0
    && cuts[|ps|] == |w|
    && forall i: nat :: i < |ps| ==> SegmentFits(cuts, ps, w, i)
  }

  ghost predicate Describes(ps: seq<Piece>, w: string) {
    exists cuts :: IsCutting(cuts, ps, w)
  }

  /** The pattern describes the first `k` characters of `text`, all of them when it is anchored at the end. */
  ghost predicate DescribesPrefix(p: Pattern, text: string, k: nat) {
    k <= |text| && (p.atEnd ==> k == |text|) && Describes(p.pieces, text[..k])
  }

  ghost predicate StartsWith(p: Pattern, text: string) {
    exists k: nat :: DescribesPrefix(p, text, k)
  }

  /** How a pattern is read: `c*` binds first, a lone final `$` is the anchor, all else is one character. */
  function Parse(re: string): Pattern {
    if |re| == 0 then Pattern([], false)
    else if |re| >= 2 && re[1] == '*' then
      var rest := Parse(re[2..]);
      Pattern([Star(re[0])] + rest.pieces, rest.atEnd)
    else if re == "$" then Pattern([], true)
    else
      var rest := Parse(re[1..]);
      Pattern([One(re[0])] + rest.pieces, rest.atEnd)
  }

  /** A leading `^` ties the match to the start of the text; otherwise any position will do. */
  ghost predicate Matches(re: string, text: string) {
    if |re| > 0 && re[0] == '^' then StartsWith(Parse(re[1..]), text)
    else exists i: nat :: i <= |text| && StartsWith(Parse(re), text[i..])
  }

  // ---------- cutting off the first piece ----------

  function Shift(cuts: seq<nat>, d: nat): (r: seq<nat>)
    ensures |r| == |cuts|
    ensures forall i :: 0 <= i < |r| ==> r[i] == cuts[i] + d
  {
    seq(|cuts|, i requires 0 <= i < |cuts| => cuts[i] + d)
  }

  lemma PrependPiece(p: Piece, ps: seq<Piece>, w: string, j: nat)
    requires j <= |w| && FitsPiece(p, w[..j]) && Describes(ps, w[j..])
    ensures Describes([p] + ps, w)
  {
    var cuts :| IsCutting(cuts, ps, w[j..]);
    var all, pps := [0] + Shift(cuts, j), [p] + ps;
    forall i: nat | i < |pps|
      ensures SegmentFits(all, pps, w, i)
    {
      if i == 0 {
        assert w[all[0]..all[1]] == w[..j];
      } else {
        assert SegmentFits(cuts, ps, w[j..], i - 1);
        assert w[j..][cuts[i-1]..cuts[i]] == w[all[i]..all[i+1]];
      }
    }
    assert IsCutting(all, pps, w);
  }

  lemma DropPiece(p: Piece, ps: seq<Piece>, w: string) returns (j: nat)
    requires Describes([p] + ps, w)
    ensures j <= |w| && FitsPiece(p, w[..j]) && Describes(ps, w[j..])
  {
    var pps := [p] + ps;
    var all :| IsCutting(all, pps, w);
    j := all[1];
    assert SegmentFits(all, pps, w, 0);
    Ascending(all, pps, w, 1);
    var cuts := seq(|ps| + 1, i requires 0 <= i < |ps| + 1 => (all[i+1] - j) as nat);
    forall i: nat | i < |ps|
      ensures SegmentFits(cuts, ps, w[j..], i)
    {
      assert SegmentFits(all, pps, w, i + 1);
      assert w[j..][cuts[i]..cuts[i+1]] == w[all[i+1]..all[i+2]];
    }
    assert IsCutting(cuts, ps, w[j..]);
  }

  lemma {:induction false} Ascending(cuts: seq<nat>, ps: seq<Piece>, w: string, a: nat)
    requires IsCutting(cuts, ps, w) && a < |cuts|
    ensures forall i :: a <= i < |cuts| ==> cuts[a] <= cuts[i]
    decreases |cuts| - a
  {
    if a + 1 < |cuts| {
      Ascending(cuts, ps, w, a + 1);
      assert SegmentFits(cuts, ps, w, a);
    }
  }

  /** The first piece takes some `j` characters and the rest of the pattern starts the text that is left. */
  lemma StartsWithPiece(p: Piece, ps: seq<Piece>, atEnd: bool, text: string)
    ensures StartsWith(Pattern([p] + ps, atEnd), text)
       <==> exists j: nat :: j <= |text| && FitsPiece(p, text[..j]) && StartsWith(Pattern(ps, atEnd), text[j..])
  {
    var whole, rest := Pattern([p] + ps, atEnd), Pattern(ps, atEnd);
    if StartsWith(whole, text) {
      var k: nat :| DescribesPrefix(whole, text, k);
      var j := DropPiece(p, ps, text[..k]);
      assert text[..k][..j] == text[..j] && text[..k][j..] == text[j..][..k-j];
      assert DescribesPrefix(rest, text[j..], k - j);
    }
    if j: nat :| j <= |text| && FitsPiece(p, text[..j]) && StartsWith(rest, text[j..]) {
      var k: nat :| DescribesPrefix(rest, text[j..], k);
      assert text[..j+k][..j] == text[..j] && text[..j+k][j..] == text[j..][..k];
      PrependPiece(p, ps, text[..j+k], j);
      assert DescribesPrefix(whole, text, j + k);
    }
  }

  lemma StartsWithNothing(atEnd: bool, text: string)
    ensures StartsWith(Pattern([], atEnd), text) <==> (atEnd ==> text == "")
  {
    assert IsCutting([0], [], text[..0]);
    if atEnd ==> text == "" {
      assert DescribesPrefix(Pattern([], atEnd), text, 0);
    }
  }

  // ---------- the matcher ----------

  /** What `matchstar` looks for: some characters that fit `c`, then the rest of the pattern. */
  ghost predicate StarThen(c: char, re: string, text: string) {
    exists j: nat :: j <= |text| && FitsPiece(Star(c), text[..j]) && StartsWith(Parse(re), text[j..])
  }

  method MatchHere(re: CString, text: CString) returns (r: bool)
    ensures r <==> StartsWith(Parse(re), text)
    decreases |re|, 0
  {
    if At(re, 0) == '\0' {
      StartsWithNothing(false, text);
      return true;
    }
    if At(re, 1) == '*' {
      StartsWithPiece(Star(re[0]), Parse(re[2..]).pieces, Parse(re[2..]).atEnd, text);
      r := MatchStar(re[0], re[2..], text);
      return;
    }
    if At(re, 0) == '$' && At(re, 1) == '\0' {
      assert re == "$";
      StartsWithNothing(true, text);
      return At(text, 0) == '\0';
    }
    StartsWithPiece(One(re[0]), Parse(re[1..]).pieces, Parse(re[1..]).atEnd, text);
    if At(text, 0) != '\0' && (re[0] == '.' || re[0] == At(text, 0)) {
      assert FitsPiece(One(re[0]), text[..1]);
      r := MatchHere(re[1..], text[1..]);
      return;
    }
    return false;
  }

  method MatchStar(c: char, re: CString, text: CString) returns (r: bool)
    ensures r <==> StarThen(c, re, text)
    decreases |re|, 1
  {
    var t := 0;
    while true
      invariant t <= |text| && FitsPiece(Star(c), text[..t])
      invariant forall j: nat :: j < t ==> !StartsWith(Parse(re), text[j..])
      decreases |text| - t
    {
      var here := MatchHere(re, text[t..]);
      if here {
        return true;
      }
      if !(At(text, t) != '\0' && (text[t] == c || c == '.')) {
        if t < |text| {
          assert forall j: nat :: t < j <= |text| ==> text[..j][t] == text[t];
        }
        return false;
      }
      assert text[..t+1] == text[..t] + [text[t]];
      t := t + 1;
    }
  }

  method Match(re: CString, text: CString) returns (r: bool)
    ensures r <==> Matches(re, text)
  {
    if At(re, 0) == '^' {
      r := MatchHere(re[1..], text);
      return;
    }
    var t := 0;
    while true
      invariant t <= |text|
      invariant forall i: nat :: i < t ==> !StartsWith(Parse(re), text[i..])
      decreases |text| - t
    {
      var here := MatchHere(re, text[t..]);
      if here {
        return true;
      }
      if At(text, t) == '\0' {
        return false;
      }
      t := t + 1;
    }
  }

  // ---------- consequences ----------

  predicate IsPlain(re: string) {
    forall i :: 0 <= i < |re| ==> re[i] != '^' && re[i] != '$' && re[i] != '.' && re[i] != '*'
  }

  /** Characters and dots. */
  predicate IsWildcard(re: string) {
    forall i :: 0 <= i < |re| ==> re[i] != '^' && re[i] != '$' && re[i] != '*'
  }

  /** The text starts with the word, but for its dots. */
  predicate Begins(re: string, text: string) {
    |re| <= |text| && forall i :: 0 <= i < |re| ==> re[i] == '.' || re[i] == text[i]
  }

  /** A word is matched character by character, and the rest of the pattern by what follows. */
  lemma {:induction false} WordThenRest(re: string, rest: string, text: string)
    requires IsWildcard(re) && (rest != "" ==> rest[0] != '*')
    ensures StartsWith(Parse(re + rest), text) <==> Begins(re, text) && StartsWith(Parse(rest), text[|re|..])
  {
    if re == "" {
      assert re + rest == rest && text[0..] == text;
    } else {
      var full := re + rest;
      assert full[1..] == re[1..] + rest;
      var p := Parse(full[1..]);
      StartsWithPiece(One(re[0]), p.pieces, p.atEnd, text);
      if text != "" {
        WordThenRest(re[1..], rest, text[1..]);
        if Begins(re, text) {
          assert text[1..][|re| - 1..] == text[|re|..];
        }
        assert text[..1] == [text[0]];
        BeginsNext(re, text);
      }
    }
  }

  lemma BeginsNext(re: string, text: string)
    requires re != "" && text != ""
    ensures Begins(re, text) <==> (re[0] == '.' || re[0] == text[0]) && Begins(re[1..], text[1..])
  {
    if (re[0] == '.' || re[0] == text[0]) && Begins(re[1..], text[1..]) {
      forall i | 0 <= i < |re|
        ensures re[i] == '.' || re[i] == text[i]
      {
        assert i > 0 ==> re[i] == re[1..][i - 1] && text[i] == text[1..][i - 1];
      }
    }
  }

  /** A dot matches any one character, and every other character but the operators itself. */
  lemma DotIsAnyCharacter(re: string, text: string)
    requires IsWildcard(re)
    ensures Matches(re, text) <==> exists i: nat :: i <= |text| && Begins(re, text[i..])
  {
    assert re + "" == re;
    forall i: nat | i <= |text|
      ensures StartsWith(Parse(re), text[i..]) <==> Begins(re, text[i..])
    {
      WordThenRest(re, "", text[i..]);
      if Begins(re, text[i..]) {
        StartsWithNothing(false, text[i..][|re|..]);
      }
    }
  }

  /** A pattern without operators matches exactly the texts that contain it. */
  lemma PlainPatternIsSubstring(re: string, text: string)
    requires IsPlain(re)
    ensures Matches(re, text) <==> exists i: nat :: i <= |text| && re <= text[i..]
  {
    DotIsAnyCharacter(re, text);
    assert forall i: nat :: i <= |text| ==> (Begins(re, text[i..]) <==> re <= text[i..]);
  }

  /** `^` and `$` around a word leave only the texts of its length that agree with it but for the dots. */
  lemma AnchoredStartsWith(re: string, text: string)
    requires IsWildcard(re)
    ensures StartsWith(Parse(re + "$"), text) <==> Begins(re, text) && |re| == |text|
  {
    WordThenRest(re, "$", text);
    if Begins(re, text) {
      StartsWithNothing(true, text[|re|..]);
    }
  }

  lemma AnchoredPatternIsEquality(re: string, text: string)
    requires IsPlain(re)
    ensures Matches("^" + re + "$", text) <==> re == text
  {
    assert ("^" + re + "$")[1..] == re + "$";
    AnchoredStartsWith(re, text);
  }

  /** A starred dot is anything, so two words around one match exactly the texts with that beginning and that end. */
  lemma DotStarIsAnything(re: string, end: string, text: string)
    requires IsPlain(re) && IsPlain(end)
    ensures Matches("^" + re + ".*" + end + "$", text)
       <==> |re| + |end| <= |text| && re <= text && text[|text| - |end|..] == end
  {
    var tail := end + "$";
    var rest := ".*" + tail;
    assert ("^" + re + ".*" + end + "$")[1..] == re + rest && rest[2..] == tail;
    WordThenRest(re, rest, text);
    if Begins(re, text) {
      var left := text[|re|..];
      StartsWithPiece(Star('.'), Parse(tail).pieces, Parse(tail).atEnd, left);
      forall j: nat | j <= |left|
        ensures StartsWith(Parse(tail), left[j..]) <==> end == left[j..]
      {
        AnchoredStartsWith(end, left[j..]);
      }
      if |end| <= |left| && text[|text| - |end|..] == end {
        assert left[|left| - |end|..] == end;
      }
    }
  }

  /** `$*` is a starred dollar sign, not an anchor, and a leading `*` is itself a character. */
  lemma DollarStarAndLeadingStar(text: string)
    ensures Parse("$*") == Pattern([Star('$')], false)
    ensures Parse("*") == Pattern([One('*')], false)
    ensures Matches("*", text) <==> '*' in text
  {
    assert Parse("*"[1..]) == Pattern([], false);
    assert "$*"[2..] == "";
    forall i: nat | i <= |text|
      ensures StartsWith(Parse("*"), text[i..]) <==> i < |text| && text[i] == '*'
    {
      StartsWithPiece(One('*'), [], false, text[i..]);
      if i < |text| {
        StartsWithNothing(false, text[i..][1..]);
        assert text[i..][..1] == [text[i]];
      }
    }
  }
}
